/** The Python string operations the core relies on: `in`, `str.split(sep)` and `sep.join`. */
module Strings {
  import opened Options

  /** The position of the first `c` in `s`, as `s.index(c)` finds it. */
  function IndexOf(s: string, c: char): (r: Option<nat>)
    ensures r.None? <==> c !in s
    ensures r.Some? ==> r.value < |s| && s[r.value] == c && c !in s[..r.value]
  {
    IndexFrom(s, c, 0)
  }

  /** The first `c` at or after position `i`. */
  function IndexFrom(s: string, c: char, i: nat): (r: Option<nat>)
    requires i <= |s|
    ensures r.None? <==> forall j :: i <= j < |s| ==> s[j] != c
    ensures r.Some? ==> i <= r.value < |s| && s[r.value] == c
    ensures r.Some? ==> forall j :: i <= j < r.value ==> s[j] != c
    decreases |s| - i
  {
    if i == |s| then None
    else if s[i] == c then Some(i)
    else IndexFrom(s, c, i + 1)
  }

  /** The first `c` of `a + b` is the first of `b`, shifted, when `a` has none. */
  lemma IndexOfAppend(a: string, b: string, c: char)
    requires c !in a
    ensures IndexOf(b, c).None? ==> IndexOf(a + b, c).None?
    ensures IndexOf(b, c).Some? ==> IndexOf(a + b, c) == Some(|a| + IndexOf(b, c).value)
  {
    var r := IndexOf(b, c);
    if r.None? {
      IndexOfAppendMissing(a, b, c);
    } else {
      IndexOfAppendFound(a, b, c, r.value);
    }
  }

  lemma IndexOfAppendMissing(a: string, b: string, c: char)
    requires c !in a && c !in b
    ensures IndexOf(a + b, c).None?
  {
    assert c !in a + b;
  }

  lemma IndexOfAppendFound(a: string, b: string, c: char, k: nat)
    requires c !in a && k < |b| && b[k] == c && c !in b[..k]
    ensures IndexOf(a + b, c) == Some(|a| + k)
  {
    var ab := a + b;
    forall i | 0 <= i < |a| + k ensures ab[i] != c {
      if i < |a| {
        assert ab[i] == a[i];
      } else {
        assert ab[i] == b[..k][i - |a|];
      }
    }
    assert ab[|a| + k] == c;
    IndexOfFirst(ab, c, |a| + k);
  }

  /** The first `c` is at `k` when `s[k]` is one and none comes before it. */
  lemma IndexOfFirst(s: string, c: char, k: nat)
    requires k < |s| && s[k] == c
    requires forall i :: 0 <= i < k ==> s[i] != c
    ensures IndexOf(s, c) == Some(k)
  {
  }

  /** `s.split(sep)`: the pieces between separators; there is always at least one. */
  function Split(s: string, sep: char): (parts: seq<string>)
    ensures |parts| >= 1
    ensures forall k :: 0 <= k < |parts| ==> sep !in parts[k]
    decreases |s|
  {
    match IndexOf(s, sep)
    case None => [s]
    case Some(k) => [s[..k]] + Split(s[k + 1..], sep)
  }

  /** `sep.join(parts)`. */
  function Join(parts: seq<string>, sep: char): string {
    if parts == [] then ""
    else if |parts| == 1 then parts[0]
    else parts[0] + [sep] + Join(parts[1..], sep)
  }

  /** A string without the separator splits into itself alone. */
  lemma SplitNone(s: string, sep: char)
    requires sep !in s
    ensures Split(s, sep) == [s]
  {
  }

  /** A separator-free head is the first piece, and the rest splits on its own. */
  lemma SplitAfter(a: string, b: string, sep: char)
    requires sep !in a
    ensures Split(a + [sep] + b, sep) == [a] + Split(b, sep)
  {
    var s := a + [sep] + b;
    IndexOfAppend(a, [sep] + b, sep);
    assert s == a + ([sep] + b);
    assert IndexOf([sep] + b, sep) == Some(0);
    assert s[..|a|] == a;
    assert s[|a| + 1..] == b;
  }

  /** Joining the pieces of a split gives back the string. */
  lemma {:induction false} JoinSplit(s: string, sep: char)
    ensures Join(Split(s, sep), sep) == s
    decreases |s|
  {
    match IndexOf(s, sep)
    case None =>
    case Some(k) =>
      var head, tail := s[..k], s[k + 1..];
      var rest := Split(tail, sep);
      assert Split(s, sep) == [head] + rest;
      JoinCons(head, rest, sep);
      JoinSplit(tail, sep);
      assert s == head + [sep] + tail;
  }

  lemma JoinCons(head: string, rest: seq<string>, sep: char)
    requires |rest| >= 1
    ensures Join([head] + rest, sep) == head + [sep] + Join(rest, sep)
  {
    assert ([head] + rest)[1..] == rest;
  }

  /** Splitting a join of separator-free pieces gives back the pieces. */
  lemma {:induction false} SplitJoin(parts: seq<string>, sep: char)
    requires |parts| >= 1
    requires forall k :: 0 <= k < |parts| ==> sep !in parts[k]
    ensures Split(Join(parts, sep), sep) == parts
  {
    if |parts| == 1 {
      SplitNone(parts[0], sep);
    } else {
      var head, tail := parts[0], Join(parts[1..], sep);
      assert Join(parts, sep) == head + [sep] + tail;
      SplitAfter(head, tail, sep);
      SplitJoin(parts[1..], sep);
      assert parts == [head] + parts[1..];
    }
  }
}
