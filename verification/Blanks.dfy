/** White space in the C locale, and texts without it at their ends. */
module Blanks {
  predicate IsBlank(c: char) {
    c == ' ' || 9 as char <= c <= 13 as char
  }

  function TrimLeft(s: string): (t: string)
    ensures |t| <= |s|
  {
    if s != "" && IsBlank(s[0]) then TrimLeft(s[1..]) else s
  }

  function TrimRight(s: string): (t: string)
    ensures |t| <= |s|
  {
    if s != "" && IsBlank(s[|s| - 1]) then TrimRight(s[..|s| - 1]) else s
  }

  function Trim(s: string): (t: string)
    ensures |t| <= |s|
  {
    TrimRight(TrimLeft(s))
  }

  lemma {:induction false} TrimLeftIs(s: string, start: nat)
    requires start <= |s| && (forall k :: 0 <= k < start ==> IsBlank(s[k])) && (start < |s| ==> !IsBlank(s[start]))
    ensures TrimLeft(s) == s[start..]
  {
    if start > 0 {
      TrimLeftIs(s[1..], start - 1);
    }
  }

  lemma {:induction false} TrimRightIs(s: string, end: nat)
    requires end <= |s| && (forall k :: end <= k < |s| ==> IsBlank(s[k])) && (end > 0 ==> !IsBlank(s[end - 1]))
    ensures TrimRight(s) == s[..end]
    decreases |s|
  {
    if end < |s| {
      TrimRightIs(s[..|s| - 1], end);
      assert s[..|s| - 1][..end] == s[..end];
    }
  }

  /** The text between its first and its last byte that is not blank. */
  lemma TrimIs(s: string, start: nat, end: nat)
    requires start <= end <= |s| && (start < end ==> !IsBlank(s[start]) && !IsBlank(s[end - 1]))
    requires (forall k :: 0 <= k < start ==> IsBlank(s[k])) && (forall k :: end <= k < |s| ==> IsBlank(s[k]))
    requires start == end ==> start == |s|
    ensures Trim(s) == s[start..end]
  {
    hide IsBlank, TrimLeft, TrimRight;
    TrimLeftIs(s, start);
    var rest := s[start..];
    assert forall k :: 0 <= k < |rest| ==> rest[k] == s[start + k];
    TrimRightIs(rest, end - start);
    assert rest[..end - start] == s[start..end];
  }

  /** The blanks are tab, line feed, vertical tab, form feed, carriage return and space. */
  lemma BlankIff(c: char)
    ensures IsBlank(c) <==> c as int in [9, 10, 11, 12, 13, 32]
  {
  }
}
