/** Characters and strings as cpplint's regular expressions see them, and an option type. */
module Chars {

  datatype Option<+T> = None | Some(value: T) {
    function GetOr(default: T): T {
      if Some? then value else default
    }
  }

  /** `\s` on ASCII text. */
  predicate IsSpace(c: char) {
    c == ' ' || c == '\t' || c == '\n' || c == '\r' || c == '\U{000B}' || c == '\U{000C}'
  }

  predicate IsDigit(c: char) {
    '0' <= c <= '9'
  }

  /** `\w` on ASCII text. */
  predicate IsWord(c: char) {
    IsDigit(c) || 'a' <= c <= 'z' || 'A' <= c <= 'Z' || c == '_'
  }

  /** `rstrip()` */
  function TrimRight(s: string): string {
    if s != "" && IsSpace(s[|s| - 1]) then TrimRight(s[..|s| - 1]) else s
  }

  /** `lstrip()` */
  function TrimLeft(s: string): string {
    if s != "" && IsSpace(s[0]) then TrimLeft(s[1..]) else s
  }

  /** `strip()` */
  function Trim(s: string): string {
    TrimRight(TrimLeft(s))
  }

  predicate EndsWith(s: string, suffix: string) {
    |s| >= |suffix| && s[|s| - |suffix|..] == suffix
  }

  /** `find(sub, from) >= 0` */
  predicate OccursFrom(s: string, sub: string, from: nat) {
    exists k :: from <= k <= |s| - |sub| && sub <= s[k..]
  }

  lemma Glue<T>(a: seq<T>, b: seq<T>, c: seq<T>)
    ensures a + b + c == a + (b + c)
  {}

  // ----- what is trimmed

  predicate Blank(s: string) {
    forall k :: 0 <= k < |s| ==> IsSpace(s[k])
  }

  lemma {:induction false} TrimLeftSkips(before: string, rest: string)
    requires Blank(before) && (rest == "" || !IsSpace(rest[0]))
    ensures TrimLeft(before + rest) == rest
  {
    if before == "" {
      assert before + rest == rest;
    } else {
      assert (before + rest)[1..] == before[1..] + rest;
      TrimLeftSkips(before[1..], rest);
    }
  }

  lemma {:induction false} TrimLeftLeaves(s: string) returns (before: string)
    ensures s == before + TrimLeft(s) && Blank(before)
    ensures TrimLeft(s) != "" ==> !IsSpace(TrimLeft(s)[0])
  {
    if s != "" && IsSpace(s[0]) {
      var inner := TrimLeftLeaves(s[1..]);
      before := [s[0]] + inner;
      assert s == [s[0]] + s[1..];
    } else {
      before := "";
    }
  }

  lemma {:induction false} TrimRightLeaves(s: string) returns (after: string)
    ensures s == TrimRight(s) + after && Blank(after)
    ensures TrimRight(s) != "" ==> !IsSpace(TrimRight(s)[|TrimRight(s)| - 1])
  {
    if s != "" && IsSpace(s[|s| - 1]) {
      var inner := TrimRightLeaves(s[..|s| - 1]);
      after := inner + [s[|s| - 1]];
      assert s == s[..|s| - 1] + [s[|s| - 1]];
    } else {
      after := "";
    }
  }

  predicate BlankBetween(s: string, from: nat, to: nat) {
    forall k :: from <= k < to <= |s| ==> IsSpace(s[k])
  }

  /** `strip()` takes off the blanks on both sides: what is left is s[a..b]. */
  lemma TrimIs(s: string) returns (a: nat, b: nat)
    ensures a <= b <= |s| && Trim(s) == s[a..b] && BlankBetween(s, 0, a) && BlankBetween(s, b, |s|)
    ensures a < b ==> !IsSpace(s[a]) && !IsSpace(s[b - 1])
  {
    var before := TrimLeftLeaves(s);
    var after := TrimRightLeaves(TrimLeft(s));
    a, b := |before|, |s| - |after|;
    assert s == before + (Trim(s) + after);
    assert s[a..b] == Trim(s);
    forall k | b <= k < |s|
      ensures IsSpace(s[k])
    {
      assert s[k] == after[k - b];
    }
    if a < b {
      assert TrimLeft(s)[0] == Trim(s)[0] == s[a] && Trim(s)[|Trim(s)| - 1] == s[b - 1];
    }
  }
}
