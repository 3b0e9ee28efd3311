/** String operations the mailbox workflow relies on: JavaScript's
    `String.prototype.includes` and `String.prototype.toLowerCase` restricted
    to ASCII. Searching a string for a character is not done by the workflow;
    it is here to build the inverses the proofs use. */
module Text {

  datatype Option<T> = None | Some(value: T)

  /** `s.includes(sub)`: `sub` occurs somewhere in `s` as a contiguous block. */
  predicate Contains(s: string, sub: string)
  {
    exists i | 0 <= i <= |s| - |sub| :: OccursAt(s, sub, i)
  }

  /** `sub` starts at position `i` of `s`. */
  predicate OccursAt(s: string, sub: string, i: int)
  {
    0 <= i && i + |sub| <= |s| && s[i..i + |sub|] == sub
  }

  predicate IsAsciiUpper(c: char)
  {
    'A' <= c <= 'Z'
  }

  /** `toLowerCase` on one character, for the ASCII letters only. */
  function LowerChar(c: char): (r: char)
    ensures !IsAsciiUpper(r)
    ensures !IsAsciiUpper(c) ==> r == c
    ensures IsAsciiUpper(c) ==> 'a' <= r <= 'z' && r as int - c as int == 'a' as int - 'A' as int
  {
    if IsAsciiUpper(c) then (c as int + ('a' as int - 'A' as int)) as char else c
  }

  /** `s.toLowerCase()` for ASCII: every character is lowered in place. */
  function ToLower(s: string): (r: string)
    ensures |r| == |s|
    ensures forall i :: 0 <= i < |s| ==> r[i] == LowerChar(s[i])
  {
    if s == [] then [] else [LowerChar(s[0])] + ToLower(s[1..])
  }

  /** Lowering twice is lowering once. */
  lemma ToLowerIdempotent(s: string)
    ensures ToLower(ToLower(s)) == ToLower(s)
  {
  }

  /** A string is its own lower-case form exactly when it has no ASCII capital. */
  lemma ToLowerFixedPoint(s: string)
    ensures ToLower(s) == s <==> forall i :: 0 <= i < |s| ==> !IsAsciiUpper(s[i])
  {
    if ToLower(s) == s {
      forall i | 0 <= i < |s| ensures !IsAsciiUpper(s[i]) {
        assert s[i] == ToLower(s)[i];
      }
    }
  }

  /** Lower-casing distributes over concatenation. */
  lemma {:induction false} ToLowerConcat(a: string, b: string)
    ensures ToLower(a + b) == ToLower(a) + ToLower(b)
  {
    if a != [] {
      assert (a + b)[1..] == a[1..] + b;
      ToLowerConcat(a[1..], b);
    }
  }

  /** Index of the first occurrence of `c` in `s`, if any. */
  function FirstIndexOf(s: string, c: char): (r: Option<nat>)
    ensures r.None? <==> c !in s
    ensures r.Some? ==> r.value < |s| && s[r.value] == c
    ensures r.Some? ==> forall j :: 0 <= j < r.value ==> s[j] != c
  {
    if s == [] then None
    else if s[0] == c then Some(0)
    else match FirstIndexOf(s[1..], c)
      case None => None
      case Some(i) => Some(i + 1)
  }

  /** Index of the last occurrence of `c` in `s`, if any. */
  function LastIndexOf(s: string, c: char): (r: Option<nat>)
    ensures r.None? <==> c !in s
    ensures r.Some? ==> r.value < |s| && s[r.value] == c
    ensures r.Some? ==> forall j :: r.value < j < |s| ==> s[j] != c
  {
    if s == [] then None
    else if s[|s| - 1] == c then Some(|s| - 1)
    else LastIndexOf(s[..|s| - 1], c)
  }

  /** In `a + b` where `b` starts with `c` and `a` avoids it, the first `c` is where `b` starts. */
  lemma FirstIndexAtJoin(a: string, b: string, c: char)
    requires c !in a && b != [] && b[0] == c
    ensures FirstIndexOf(a + b, c) == Some(|a|)
  {
    var r := FirstIndexOf(a + b, c);
    assert (a + b)[|a|] == c;
    assert r.Some?;
  }

  /** In `a + [c] + b` where `b` avoids `c`, the last `c` is the one between them. */
  lemma LastIndexAtJoin(a: string, c: char, b: string)
    requires c !in b
    ensures LastIndexOf(a + [c] + b, c) == Some(|a|)
  {
    var s := a + [c] + b;
    var r := LastIndexOf(s, c);
    assert s[|a|] == c;
    assert r.Some?;
  }
}
