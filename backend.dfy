/** `parse_gnucash_backend_exception`: the code that GnuCash puts after
    "resulted in the following errors, " in a backend exception's message. */
module BackendMessage {
  import opened Errors

  const CallPrefix: string := "call to "
  const Separator: string := " resulted in the following errors, "

  predicate StartsWith(s: string, p: string) {
    |p| <= |s| && s[..|p|] == p
  }

  predicate NoNewline(s: string) {
    forall i :: 0 <= i < |s| ==> s[i] != '\n'
  }

  predicate OccursAt(s: string, i: nat, pat: string) {
    i + |pat| <= |s| && s[i..i + |pat|] == pat
  }

  /** The first position at or after `from` where `pat` occurs in `s`. */
  function FirstOccurrence(s: string, pat: string, from: nat): (r: Option<nat>)
    decreases |s| - from
    ensures r.Some? ==> from <= r.value && OccursAt(s, r.value, pat)
    ensures forall j: nat :: from <= j && (r.None? || j < r.value) ==> !OccursAt(s, j, pat)
  {
    if from + |pat| > |s| then None
    else if OccursAt(s, from, pat) then Some(from)
    else FirstOccurrence(s, pat, from + 1)
  }

  /** The groups of `re.match(r'^call to (.*?) resulted in the following errors, (.*?)$', s)`,
      or None where there is no match. The lazy first group stops at the first separator;
      `.` matches any character but a newline, and `$` matches at the end of the string or
      just before a final newline. On a match there are always exactly two groups, and
      they rebuild the message. */
  function MatchGroups(s: string): (r: Option<seq<string>>)
    ensures r.Some? ==> |r.value| == 2 && NoNewline(r.value[0]) && NoNewline(r.value[1])
    ensures r.Some? ==>
      s == CallPrefix + r.value[0] + Separator + r.value[1] ||
      s == CallPrefix + r.value[0] + Separator + r.value[1] + "\n"
  {
    if !StartsWith(s, CallPrefix) then None
    else match FirstOccurrence(s, Separator, |CallPrefix|)
      case None => None
      case Some(k) =>
        var a, rest := s[|CallPrefix|..k], s[k + |Separator|..];
        assert s == CallPrefix + a + Separator + rest by {
          assert s == s[..|CallPrefix|] + s[|CallPrefix|..k] + s[k..k + |Separator|] + s[k + |Separator|..];
        }
        if !NoNewline(a) then None
        else if NoNewline(rest) then Some([a, rest])
        else if NoNewline(rest[..|rest| - 1]) && rest[|rest| - 1] == '\n' then
          assert rest == rest[..|rest| - 1] + "\n";
          Some([a, rest[..|rest| - 1]])
        else None
  }

  /** `parse_gnucash_backend_exception(s)`: the second group of the match. None stands for
      the AttributeError that `None.groups()` raises when the message does not match. */
  function ParseGnucashBackendException(s: string): (r: Option<string>)
    ensures !StartsWith(s, CallPrefix) ==> r.None?
    ensures r.Some? ==> NoNewline(r.value) && |CallPrefix| + |Separator| + |r.value| <= |s|
  {
    match MatchGroups(s)
    case None => None
    case Some(groups) => if |groups| == 2 then Some(groups[1]) else Some("")
  }

  /** The separator first occurs in `a + Separator` at the end of `a`. */
  predicate SeparatorFirstAfter(a: string) {
    forall i: nat :: i < |a| ==> !OccursAt(a + Separator, i, Separator)
  }

  /** An occurrence inside a slice of `s` is an occurrence in `s` at the shifted position. */
  lemma OccursInSlice(s: string, off: nat, t: string, i: nat, pat: string)
    requires off + |t| <= |s| && s[off..off + |t|] == t
    requires i + |pat| <= |t|
    ensures OccursAt(s, off + i, pat) <==> OccursAt(t, i, pat)
  {
    var inS, inT := s[off + i..off + i + |pat|], t[i..i + |pat|];
    forall k | 0 <= k < |pat|
      ensures inS[k] == inT[k]
    {
      assert s[off + i + k] == s[off..off + |t|][i + k];
    }
    assert inS == inT;
  }

  /** In `CallPrefix + a + Separator + b`, the first separator after the prefix is the one
      that follows `a`, provided no occurrence starts inside `a`. */
  lemma FirstSeparatorOf(a: string, b: string)
    requires SeparatorFirstAfter(a)
    ensures FirstOccurrence(CallPrefix + a + Separator + b, Separator, |CallPrefix|)
         == Some(|CallPrefix| + |a|)
  {
    var s := CallPrefix + a + Separator + b;
    var p := |CallPrefix|;
    var t := a + Separator;
    assert s[p..p + |t|] == t;
    OccursInSlice(s, p, t, |a|, Separator);
    forall j: nat | p <= j < p + |a|
      ensures !OccursAt(s, j, Separator)
    {
      OccursInSlice(s, p, t, j - p, Separator);
    }
  }

  /** A message built from a call name and an error text without newlines, whose call name
      does not hide the separator, parses back to the error text, with or without a
      trailing newline. */
  lemma ParseOfComposedMessage(a: string, b: string)
    requires NoNewline(a) && NoNewline(b) && SeparatorFirstAfter(a)
    ensures ParseGnucashBackendException(CallPrefix + a + Separator + b) == Some(b)
    ensures ParseGnucashBackendException(CallPrefix + a + Separator + b + "\n") == Some(b)
  {
    var p, k := |CallPrefix|, |CallPrefix| + |a|;
    var s := CallPrefix + a + Separator + b;
    FirstSeparatorOf(a, b);
    assert s[..p] == CallPrefix;
    assert s[p..k] == a;
    assert s[k + |Separator|..] == b;
    var s' := CallPrefix + a + Separator + (b + "\n");
    assert s' == s + "\n";
    FirstSeparatorOf(a, b + "\n");
    assert s'[..p] == CallPrefix;
    assert s'[p..k] == a;
    var rest := s'[k + |Separator|..];
    assert rest == b + "\n";
    assert rest[..|rest| - 1] == b;
    assert rest[|rest| - 1] == '\n';
    assert !NoNewline(rest);
  }

  /** The lazy first group ends at the first separator: none starts inside it. */
  lemma FirstGroupHidesNoSeparator(s: string, k: nat)
    requires |CallPrefix| <= k
    requires FirstOccurrence(s, Separator, |CallPrefix|) == Some(k)
    ensures SeparatorFirstAfter(s[|CallPrefix|..k])
  {
    var p := |CallPrefix|;
    var a := s[p..k];
    var t := a + Separator;
    assert s[p..k + |Separator|] == t;
    forall i: nat | i < |a|
      ensures !OccursAt(t, i, Separator)
    {
      OccursInSlice(s, p, t, i, Separator);
    }
  }

  /** Whatever parses was built that way: the result is the text after the first separator
      that follows "call to ". */
  lemma ParsedMessageShape(s: string) returns (a: string)
    requires ParseGnucashBackendException(s).Some?
    ensures NoNewline(a) && SeparatorFirstAfter(a)
    ensures var b := ParseGnucashBackendException(s).value;
      s == CallPrefix + a + Separator + b || s == CallPrefix + a + Separator + b + "\n"
  {
    var groups := MatchGroups(s).value;
    a := groups[0];
    assert StartsWith(s, CallPrefix);
    var k := FirstOccurrence(s, Separator, |CallPrefix|).value;
    assert a == s[|CallPrefix|..k];
    FirstGroupHidesNoSeparator(s, k);
  }
}
