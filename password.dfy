/** The password generator of the mailbox workflow (`generatePassword`).
    Randomness is an explicit oracle: every `Math.floor(Math.random() * n)`
    becomes an index below `n`, and the coin flip `Math.random() < 0.5`
    becomes a boolean. */
module Password {
  import opened Text

  /** The letters `a` to `z`, `A` to `Z` and the digits `0` to `9`, each in
      order; `ClassesSpelledOut` shows they are the source's strings. */
  const Lower := Run('a', 26)
  const Upper := Run('A', 26)
  const Digits := Run('0', 10)
  const Specials := "!$%()=?+#-.:~*@[]_"
  /** The `n` consecutive characters from `first` on. */
  function Run(first: char, n: nat): (s: string)
    requires first as int + n <= 0xD800
    ensures |s| == n
  {
    seq(n, i requires 0 <= i < n => (first as int + i) as char)
  }

  /** The alphabet the padding characters are drawn from. */
  const All := Lower + Upper + Digits + Specials

  /** The length the padding loop stops at. */
  const Length := 12
  /** Characters placed before the padding loop: one lower, one upper, one digit-or-special. */
  const Seeded := 3

  /** The random draws of one call, in the order the source makes them:
      an index into `Lower`, an index into `Upper`, the coin (true when
      `Math.random() < 0.5`, choosing `Digits`), an index into the class the
      coin chose, and the indices into `All` used by the padding loop. */
  datatype Draws = Draws(lowerIdx: nat, upperIdx: nat, digit: bool, thirdIdx: nat, padIdx: seq<nat>)

  /** The class the third character is drawn from. */
  function ThirdClass(digit: bool): string
  {
    if digit then Digits else Specials
  }

  /** Every index is below the size of its class, and there are enough
      padding draws for the loop. */
  predicate WellFormed(d: Draws)
  {
    && d.lowerIdx < |Lower|
    && d.upperIdx < |Upper|
    && d.thirdIdx < |ThirdClass(d.digit)|
    && |d.padIdx| >= Length - Seeded
    && forall k :: 0 <= k < |d.padIdx| ==> d.padIdx[k] < |All|
  }

  /** The three seeded characters. */
  function Seed(d: Draws): string
    requires WellFormed(d)
  {
    [Lower[d.lowerIdx], Upper[d.upperIdx], ThirdClass(d.digit)[d.thirdIdx]]
  }

  /** The characters of `All` at the given indices. */
  function Padding(idx: seq<nat>): (s: string)
    requires forall k :: 0 <= k < |idx| ==> idx[k] < |All|
    ensures |s| == |idx|
    ensures forall k :: 0 <= k < |idx| ==> s[k] == All[idx[k]]
  {
    if idx == [] then [] else [All[idx[0]]] + Padding(idx[1..])
  }

  /** Proof step: one more padding draw appends one character. */
  lemma PaddingStep(idx: seq<nat>, n: nat)
    requires n < |idx|
    requires forall k :: 0 <= k < |idx| ==> idx[k] < |All|
    ensures Padding(idx[..n + 1]) == Padding(idx[..n]) + [All[idx[n]]]
  {
    assert idx[..n + 1] == idx[..n] + [idx[n]];
    var a, b := Padding(idx[..n + 1]), Padding(idx[..n]) + [All[idx[n]]];
    assert forall k :: 0 <= k < |a| ==> a[k] == b[k];
  }

  /** Proof step: before the loop the password is the seed alone. */
  lemma Unpadded(d: Draws)
    requires WellFormed(d)
    ensures Seed(d) + Padding(d.padIdx[..0]) == Seed(d)
  {
    assert Padding(d.padIdx[..0]) == [];
  }

  /** Proof step: the three appends of the seeding spell the seed. */
  lemma ThreeAppends(a: char, b: char, c: char)
    ensures "" + [a] + [b] + [c] == [a, b, c]
  {
  }

  /** Proof step: one turn of the padding loop keeps the password a prefix of the result. */
  lemma PadOnce(d: Draws, pass: string)
    requires WellFormed(d) && Seeded <= |pass| < Length
    requires pass == Seed(d) + Padding(d.padIdx[..|pass| - Seeded])
    ensures pass + [All[d.padIdx[|pass| - Seeded]]] == Seed(d) + Padding(d.padIdx[..|pass| + 1 - Seeded])
  {
    var n := |pass| - Seeded;
    PaddingStep(d.padIdx, n);
    AppendAssoc(Seed(d), Padding(d.padIdx[..n]), [All[d.padIdx[n]]]);
  }

  /** Proof step: concatenation is associative. */
  lemma AppendAssoc(a: string, b: string, c: string)
    ensures (a + b) + c == a + (b + c)
  {
  }

  /** The password the source returns for the draws `d`. */
  function PasswordFrom(d: Draws): (pw: string)
    requires WellFormed(d)
    ensures |pw| == Length
  {
    Seed(d) + Padding(d.padIdx[..Length - Seeded])
  }

  /** The layout the generator guarantees: twelve characters, a lower-case
      letter, an upper-case letter, a digit or special, then any characters
      of the alphabet. */
  predicate Layout(pw: string)
  {
    && |pw| == Length
    && pw[0] in Lower
    && pw[1] in Upper
    && (pw[2] in Digits || pw[2] in Specials)
    && forall i :: Seeded <= i < |pw| ==> pw[i] in All
  }

  /** The composition policy a password promises: at least twelve characters,
      at least one lower-case letter, one upper-case letter and one digit or
      special, and nothing outside the alphabet. */
  predicate MeetsPolicy(pw: string)
  {
    && |pw| >= Length
    && (exists i :: 0 <= i < |pw| && pw[i] in Lower)
    && (exists i :: 0 <= i < |pw| && pw[i] in Upper)
    && (exists i :: 0 <= i < |pw| && (pw[i] in Digits || pw[i] in Specials))
    && forall i :: 0 <= i < |pw| ==> pw[i] in All
  }

  lemma ClassesSpelledOut()
    ensures Lower == "abcdefghijklmnopqrstuvwxyz"
    ensures Upper == "ABCDEFGHIJKLMNOPQRSTUVWXYZ"
    ensures Digits == "0123456789"
  {
  }

  /** The alphabet is the four classes and has 80 characters. */
  lemma AlphabetSize()
    ensures |Lower| == 26 && |Upper| == 26 && |Digits| == 10 && |Specials| == 18
    ensures |All| == 80
    ensures forall c :: c in All <==> c in Lower || c in Upper || c in Digits || c in Specials
  {
  }

  /** `generatePassword`: seed three characters, then append from `All`
      while the password is shorter than twelve. */
  method GeneratePassword(d: Draws) returns (pass: string)
    requires WellFormed(d)
    ensures pass == PasswordFrom(d)
    ensures Layout(pass)
    ensures pass[2] in ThirdClass(d.digit)
  {
    pass := "";
    pass := pass + [Lower[d.lowerIdx]];
    pass := pass + [Upper[d.upperIdx]];
    pass := pass + [if d.digit then Digits[d.thirdIdx] else Specials[d.thirdIdx]];
    ThreeAppends(Lower[d.lowerIdx], Upper[d.upperIdx], ThirdClass(d.digit)[d.thirdIdx]);
    Unpadded(d);
    while |pass| < Length
      invariant Seeded <= |pass| <= Length
      invariant pass == Seed(d) + Padding(d.padIdx[..|pass| - Seeded])
    {
      PadOnce(d, pass);
      pass := pass + [All[d.padIdx[|pass| - Seeded]]];
    }
    GeneratedLayout(d);
  }

  /** Every oracle yields a password with the guaranteed layout; the third
      character is from the class the coin chose. */
  lemma GeneratedLayout(d: Draws)
    requires WellFormed(d)
    ensures Layout(PasswordFrom(d))
    ensures PasswordFrom(d)[2] in ThirdClass(d.digit)
  {
    var pw := PasswordFrom(d);
    var pads := d.padIdx[..Length - Seeded];
    forall i | Seeded <= i < |pw| ensures pw[i] in All {
      assert pw[i] == All[pads[i - Seeded]];
    }
  }

  /** The layout implies the composition policy. */
  lemma LayoutMeetsPolicy(pw: string)
    requires Layout(pw)
    ensures MeetsPolicy(pw)
  {
    forall i | 0 <= i < |pw| ensures pw[i] in All {
      if i < Seeded {
        ClassInAll(pw[i]);
      }
    }
    assert pw[0] in Lower && pw[1] in Upper && (pw[2] in Digits || pw[2] in Specials);
  }

  /** Each class is part of the alphabet. */
  lemma ClassInAll(c: char)
    ensures c in Lower || c in Upper || c in Digits || c in Specials ==> c in All
  {
  }

  /** Every oracle yields a password meeting the composition policy. */
  lemma GeneratedMeetsPolicy(d: Draws)
    requires WellFormed(d)
    ensures MeetsPolicy(PasswordFrom(d))
  {
    GeneratedLayout(d);
    LayoutMeetsPolicy(PasswordFrom(d));
  }

  /** The index of `c` in a class that holds it. */
  function IndexIn(s: string, c: char): (i: nat)
    requires c in s
    ensures i < |s| && s[i] == c
  {
    FirstIndexOf(s, c).value
  }

  /** For a string over the alphabet, the indices into `All` that spell it. */
  function IndicesOf(s: string): (idx: seq<nat>)
    requires forall i :: 0 <= i < |s| ==> s[i] in All
    ensures |idx| == |s|
    ensures forall k :: 0 <= k < |s| ==> idx[k] < |All| && All[idx[k]] == s[k]
  {
    if s == [] then [] else [IndexIn(All, s[0])] + IndicesOf(s[1..])
  }

  /** Conversely, every string with the layout is produced by some oracle:
      the layout describes exactly the generator's possible results. */
  lemma EveryLayoutIsGenerated(pw: string)
    requires Layout(pw)
    ensures exists d :: WellFormed(d) && PasswordFrom(d) == pw
  {
    var digit := pw[2] in Digits;
    var tail := pw[Seeded..];
    assert forall i :: 0 <= i < |tail| ==> tail[i] == pw[i + Seeded];
    var pads := IndicesOf(tail);
    assert Padding(pads) == tail;
    var d := Draws(IndexIn(Lower, pw[0]), IndexIn(Upper, pw[1]), digit, IndexIn(ThirdClass(digit), pw[2]), pads);
    assert WellFormed(d);
    assert pads[..Length - Seeded] == pads;
    assert Seed(d) == [pw[0], pw[1], pw[2]];
    SplitAtSeed(pw);
  }

  /** Proof step: a string of at least three characters is its first three
      characters followed by the rest. */
  lemma SplitAtSeed(s: string)
    requires |s| >= Seeded
    ensures s == [s[0], s[1], s[2]] + s[Seeded..]
  {
  }
}
