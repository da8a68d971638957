/** The few Python string operations the formatters rely on. */
module Strings {

  /** Python's `u * n`: `n` copies of `u`, and the empty string when `n <= 0`. */
  function Repeat(u: string, n: int): (r: string)
    decreases if n < 0 then 0 else n
  {
    if n <= 0 then "" else u + Repeat(u, n - 1)
  }

  lemma {:induction false} RepeatLength(u: string, n: int)
    ensures |Repeat(u, n)| == if n <= 0 then 0 else n * |u|
    decreases if n < 0 then 0 else n
  {
    if n > 0 {
      RepeatLength(u, n - 1);
    }
  }

  /** Repeating a string made of one character only gives a string made of that character only. */
  lemma {:induction false} RepeatUniform(u: string, n: int, c: char)
    requires forall i :: 0 <= i < |u| ==> u[i] == c
    ensures forall i :: 0 <= i < |Repeat(u, n)| ==> Repeat(u, n)[i] == c
    decreases if n < 0 then 0 else n
  {
    if n > 0 {
      RepeatUniform(u, n - 1, c);
    }
  }

  /** `sep.join(items)`. */
  function Join(sep: string, items: seq<string>): (r: string)
  {
    if items == [] then "" else if |items| == 1 then items[0] else items[0] + sep + Join(sep, items[1..])
  }

  /** Joining two or more items with a non-empty separator never gives the empty string. */
  lemma JoinNonEmpty(sep: string, items: seq<string>)
    requires sep != "" && |items| >= 2
    ensures Join(sep, items) != ""
  {
    assert |Join(sep, items)| >= |sep|;
  }

  /** Joining one more item appends the separator and that item. */
  lemma {:induction false} JoinSnoc(sep: string, items: seq<string>, x: string)
    requires items != []
    ensures Join(sep, items + [x]) == Join(sep, items) + sep + x
    decreases |items|
  {
    if |items| > 1 {
      assert (items + [x])[1..] == items[1..] + [x];
      JoinSnoc(sep, items[1..], x);
    }
  }

  /** Each item appears in the joined text; `k` is where item `i` starts. */
  lemma {:induction false} JoinContains(sep: string, items: seq<string>, i: nat) returns (k: nat)
    requires i < |items|
    ensures k + |items[i]| <= |Join(sep, items)| && Join(sep, items)[k..k + |items[i]|] == items[i]
    decreases |items|
  {
    if i == 0 {
      k := 0;
    } else {
      var rest := JoinContains(sep, items[1..], i - 1);
      k := |items[0]| + |sep| + rest;
      assert items[1..][i - 1] == items[i];
      var tail := Join(sep, items[1..]);
      assert Join(sep, items) == items[0] + sep + tail;
      assert Join(sep, items)[k..k + |items[i]|] == tail[rest..rest + |items[i]|];
    }
  }

  /** A slice of the middle part of `pre + mid + post`, shifted by `|pre|`. */
  lemma MiddleSlice(pre: string, mid: string, post: string, at: nat, len: nat)
    requires at + len <= |mid|
    ensures (pre + mid + post)[|pre| + at..|pre| + at + len] == mid[at..at + len]
  {
    var whole := pre + mid + post;
    assert forall x :: |pre| + at <= x < |pre| + at + len ==> whole[x] == mid[x - |pre|];
  }

  predicate EndsWith(s: string, suffix: string)
  {
    |suffix| <= |s| && s[|s| - |suffix|..] == suffix
  }

  predicate StartsWith(s: string, prefix: string)
  {
    |prefix| <= |s| && s[..|prefix|] == prefix
  }
}
