/** The values the workflow derives from the freelancer record: the mailbox
    local part, the e-mail address and the description typed into the
    mailbox form. */
module Identity {
  import opened Text

  /** The record the request handler builds for one request. */
  datatype Freelancer = Freelancer(firstName: string, lastName: string, createdBy: string, requestedBy: string)

  /** `firstName[0].toLowerCase() + "." + lastName.toLowerCase()`: the
      lowered initial, a dot, then the lowered last name;
      `LocalPartIsLowerCase` shows none of its characters is a capital. */
  function LocalPart(firstName: string, lastName: string): (r: string)
    requires firstName != ""
    ensures |r| == |lastName| + 2 && r[1] == '.'
    ensures r[0] == LowerChar(firstName[0])
    ensures r[2..] == ToLower(lastName)
  {
    [LowerChar(firstName[0])] + "." + ToLower(lastName)
  }

  /** `local + "@" + domain`: the local part, then `@` at its end, then the domain. */
  function Address(localPart: string, domain: string): (r: string)
    ensures |r| == |localPart| + 1 + |domain| && r[|localPart|] == '@'
    ensures r[..|localPart|] == localPart && r[|localPart| + 1..] == domain
  {
    localPart + "@" + domain
  }

  /** Splits an address at its last `@` into local part and domain. */
  function SplitAddress(address: string): (r: Option<(string, string)>)
    ensures r.None? <==> '@' !in address
    ensures r.Some? ==> Address(r.value.0, r.value.1) == address && '@' !in r.value.1
  {
    match LastIndexOf(address, '@')
    case None => None
    case Some(i) =>
      assert address == address[..i] + "@" + address[i + 1..];
      Some((address[..i], address[i + 1..]))
  }

  /** The text typed into the description field. */
  function Description(f: Freelancer): string
  {
    "erstellt: " + f.createdBy + ", request: " + f.requestedBy + ", freelancer: " + f.firstName + " " + f.lastName
  }

  /** What a description can be read back into. */
  datatype DescriptionFields = DescriptionFields(createdBy: string, requestedBy: string, fullName: string)

  /** `s` without the leading `tag`, if it starts with it. */
  function StripTag(s: string, tag: string): (r: Option<string>)
    ensures r.Some? ==> s == tag + r.value
  {
    if |tag| <= |s| && s[..|tag|] == tag then
      assert s == s[..|tag|] + s[|tag|..];
      Some(s[|tag|..])
    else None
  }

  /** `s` cut just before its first comma, if it has one. */
  function SplitAtComma(s: string): (r: Option<(string, string)>)
    ensures r.Some? ==> s == r.value.0 + r.value.1 && ',' !in r.value.0
  {
    match FirstIndexOf(s, ',')
    case None => None
    case Some(i) =>
      assert s == s[..i] + s[i..];
      Some((s[..i], s[i..]))
  }

  /** Reads a description back: the creator up to the first comma, the
      requester up to the next comma, the rest as the full name. */
  function ParseDescription(d: string): Option<DescriptionFields>
  {
    match StripTag(d, "erstellt: ")
    case None => None
    case Some(rest) =>
      match SplitAtComma(rest)
      case None => None
      case Some((creator, afterCreator)) =>
        match StripTag(afterCreator, ", request: ")
        case None => None
        case Some(rest2) =>
          match SplitAtComma(rest2)
          case None => None
          case Some((requester, afterRequester)) =>
            match StripTag(afterRequester, ", freelancer: ")
            case None => None
            case Some(name) => Some(DescriptionFields(creator, requester, name))
  }

  lemma StripTagJoin(tag: string, rest: string)
    ensures StripTag(tag + rest, tag) == Some(rest)
  {
    assert (tag + rest)[..|tag|] == tag;
  }

  lemma SplitAtCommaJoin(a: string, b: string)
    requires ',' !in a && b != [] && b[0] == ','
    ensures SplitAtComma(a + b) == Some((a, b))
  {
    FirstIndexAtJoin(a, b, ',');
    assert (a + b)[..|a|] == a;
  }

  /** The local part has no capital letter: it is its own lower-case form. */
  lemma LocalPartIsLowerCase(firstName: string, lastName: string)
    requires firstName != ""
    ensures ToLower(LocalPart(firstName, lastName)) == LocalPart(firstName, lastName)
    ensures forall i :: 0 <= i < |LocalPart(firstName, lastName)| ==> !IsAsciiUpper(LocalPart(firstName, lastName)[i])
  {
    var r := LocalPart(firstName, lastName);
    forall i | 0 <= i < |r| ensures !IsAsciiUpper(r[i]) {
      if i >= 2 {
        assert r[i] == ToLower(lastName)[i - 2];
      }
    }
    ToLowerFixedPoint(r);
  }

  /** The local part does not depend on how the names are capitalised. */
  lemma LocalPartIgnoresCase(firstName: string, lastName: string)
    requires firstName != ""
    ensures ToLower(firstName) != ""
    ensures LocalPart(ToLower(firstName), ToLower(lastName)) == LocalPart(firstName, lastName)
  {
    ToLowerIdempotent(lastName);
    assert LowerChar(LowerChar(firstName[0])) == LowerChar(firstName[0]);
  }

  /** Two requests get the same local part exactly when their first initials
      and their last names agree up to case. */
  lemma LocalPartEqualIff(f1: string, l1: string, f2: string, l2: string)
    requires f1 != "" && f2 != ""
    ensures LocalPart(f1, l1) == LocalPart(f2, l2)
        <==> LowerChar(f1[0]) == LowerChar(f2[0]) && ToLower(l1) == ToLower(l2)
  {
    var a, b := LocalPart(f1, l1), LocalPart(f2, l2);
    if a == b {
      assert a[0] == LowerChar(f1[0]) && b[0] == LowerChar(f2[0]);
      assert a[2..] == ToLower(l1) && b[2..] == ToLower(l2);
    }
  }

  /** The worked examples below take the names as parameters fixed by the
      precondition, not as literal arguments: the proof then lowers the last
      name in a lemma of its own and never unfolds the whole literal at once. */

  /** ("Jane", "Doe") gives "j.doe". */
  lemma LocalPartJaneDoe(firstName: string, lastName: string)
    requires firstName == "Jane" && lastName == "Doe"
    ensures LocalPart(firstName, lastName) == "j.doe"
  {
    LowerDoe(lastName);
    LocalPartOf(firstName, lastName, 'j', "doe");
  }

  /** Proof step for `LocalPartJaneDoe`: the last name lowered. */
  lemma LowerDoe(lastName: string)
    requires lastName == "Doe"
    ensures ToLower(lastName) == "doe"
  {
  }

  /** ("A", "Smith-Jones") gives "a.smith-jones". */
  lemma LocalPartSmithJones(firstName: string, lastName: string)
    requires firstName == "A" && lastName == "Smith-Jones"
    ensures LocalPart(firstName, lastName) == "a.smith-jones"
  {
    LowerSmithJones(lastName);
    LocalPartOf(firstName, lastName, 'a', "smith-jones");
  }

  /** Proof step for `LocalPartSmithJones`: the last name lowered. */
  lemma LowerSmithJones(lastName: string)
    requires lastName == "Smith-Jones"
    ensures ToLower(lastName) == "smith-jones"
  {
  }

  /** ("Max", "Mustermann") gives "m.mustermann". */
  lemma LocalPartMustermann(firstName: string, lastName: string)
    requires firstName == "Max" && lastName == "Mustermann"
    ensures LocalPart(firstName, lastName) == "m.mustermann"
  {
    LowerMustermann(lastName);
    LocalPartOf(firstName, lastName, 'm', "mustermann");
  }

  /** Proof step for `LocalPartMustermann`: the last name lowered. */
  lemma LowerMustermann(lastName: string)
    requires lastName == "Mustermann"
    ensures ToLower(lastName) == "mustermann"
  {
  }

  /** Proof step: the local part from the lowered initial and last name. */
  lemma LocalPartOf(firstName: string, lastName: string, initial: char, lowered: string)
    requires firstName != "" && LowerChar(firstName[0]) == initial && ToLower(lastName) == lowered
    ensures LocalPart(firstName, lastName) == [initial] + "." + lowered
  {
  }

  /** The address splits back into local part and domain whenever the domain
      has no `@`, whatever the local part holds. */
  lemma AddressRoundTrip(localPart: string, domain: string)
    requires '@' !in domain
    ensures SplitAddress(Address(localPart, domain)) == Some((localPart, domain))
  {
    LastIndexAtJoin(localPart, '@', domain);
    var s := Address(localPart, domain);
    assert s[..|localPart|] == localPart;
    assert s[|localPart| + 1..] == domain;
  }

  /** The description reads back into its creator, requester and full name
      whenever neither the creator nor the requester holds a comma. */
  lemma DescriptionRoundTrip(f: Freelancer)
    requires ',' !in f.createdBy && ',' !in f.requestedBy
    ensures ParseDescription(Description(f))
         == Some(DescriptionFields(f.createdBy, f.requestedBy, f.firstName + " " + f.lastName))
  {
    var name := f.firstName + " " + f.lastName;
    var tail := ", freelancer: " + name;
    var rest2 := f.requestedBy + tail;
    var afterCreator := ", request: " + rest2;
    var rest := f.createdBy + afterCreator;
    assert Description(f) == "erstellt: " + rest;
    StripTagJoin("erstellt: ", rest);
    SplitAtCommaJoin(f.createdBy, afterCreator);
    StripTagJoin(", request: ", rest2);
    SplitAtCommaJoin(f.requestedBy, tail);
    StripTagJoin(", freelancer: ", name);
  }
}
