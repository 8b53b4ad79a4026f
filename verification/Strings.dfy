/** The few operations on Go strings that the reference code uses. */
module Strings {

  /** Index of the first character of s that is in cs, or |s|. */
  function Find(s: string, cs: set<char>): (r: nat)
    ensures r <= |s|
    ensures r < |s| ==> s[r] in cs
    ensures forall i :: 0 <= i < r ==> s[i] !in cs
  {
    if s == "" || s[0] in cs then 0 else 1 + Find(s[1..], cs)
  }

  /** Index just after the last occurrence of c in s, or 0. */
  function AfterLast(s: string, c: char): (r: nat)
    ensures r <= |s|
    ensures r > 0 ==> s[r - 1] == c
    ensures forall i :: r <= i < |s| ==> s[i] != c
  {
    if s == "" then 0
    else if s[|s| - 1] == c then |s|
    else AfterLast(s[..|s| - 1], c)
  }

  predicate OccursAt(s: string, t: string, i: nat)
  {
    i + |t| <= |s| && s[i..i + |t|] == t
  }

  predicate Contains(s: string, t: string)
  {
    exists i: nat :: i <= |s| && OccursAt(s, t, i)
  }

  /** strings.Cut, the part after the separator; empty when there is none. */
  function CutAfter(s: string, c: char): string
  {
    if c in s then s[Find(s, {c}) + 1..] else ""
  }

  /** What a stretch of s contains, s contains. */
  lemma StretchContains(s: string, t: string, u: string)
    requires Contains(s, t)
    ensures Contains(t, u) ==> Contains(s, u)
  {
    if Contains(t, u) {
      var i: nat :| i <= |s| && OccursAt(s, t, i);
      var j: nat :| j <= |t| && OccursAt(t, u, j);
      forall k | 0 <= k < |u|
        ensures s[i + j + k] == u[k]
      {
        assert u[k] == t[j..j + |u|][k] == t[j + k];
        assert t[j + k] == s[i..i + |t|][j + k];
      }
      assert OccursAt(s, u, i + j);
    }
  }

  /** An occurrence in the end of a text is one in that end. */
  lemma OccursInEnd(s: string, t: string, from: nat, i: nat)
    requires from <= i && from <= |s| && OccursAt(s, t, i)
    ensures OccursAt(s[from..], t, i - from)
  {
    assert s[from..][i - from..i - from + |t|] == s[i..i + |t|];
  }

  lemma CutParts(s: string, c: char)
    requires c in s
    ensures s == s[..Find(s, {c})] + [c] + CutAfter(s, c)
  {
    var k := Find(s, {c});
    assert s[k] == c;
    assert s[k..] == [s[k]] + s[k + 1..];
  }

  /** A stretch free of cs, up to the end or a character of cs. */
  lemma FindAfter(a: string, b: string, cs: set<char>)
    requires forall c :: c in a ==> c !in cs
    requires b == "" || b[0] in cs
    ensures Find(a + b, cs) == |a|
    ensures (a + b)[..|a|] == a && (a + b)[|a|..] == b
  {
    assert forall i :: 0 <= i < |a| ==> (a + b)[i] == a[i] && a[i] in a;
    assert b != "" ==> (a + b)[|a|] == b[0];
  }

  /* ---------- Slash-separated paths ---------- */

  function Split(s: string): (parts: seq<string>)
    ensures parts != []
  {
    var k := Find(s, {'/'});
    if k == |s| then [s] else [s[..k]] + Split(s[k + 1..])
  }

  /** path.Clean on one more component of a rooted path, given what is left of those before. */
  function Push(stack: seq<string>, part: string): seq<string>
  {
    if part == "" || part == "." then stack
    else if part == ".." then (if stack == [] then [] else stack[..|stack| - 1])
    else stack + [part]
  }

  function Reduce(stack: seq<string>, parts: seq<string>): seq<string>
    decreases |parts|
  {
    if parts == [] then stack else Reduce(Push(stack, parts[0]), parts[1..])
  }

  predicate Ordinary(part: string)
  {
    part !in {"", ".", ".."}
  }

  lemma FirstIs(s: string, cs: set<char>, k: nat)
    requires k < |s| && s[k] in cs && forall i :: 0 <= i < k ==> s[i] !in cs
    ensures Find(s, cs) == k
  {
  }

  /** A path whose first part is known. */
  lemma SplitFirst(s: string, part: string, rest: string)
    requires '/' !in part && s == part + ['/'] + rest
    ensures Split(s) == [part] + Split(rest)
  {
    assert s[|part|] == '/';
    assert forall i :: 0 <= i < |part| ==> s[i] == part[i] && part[i] in part;
    FirstIs(s, {'/'}, |part|);
    assert s[..|part|] == part && s[|part| + 1..] == rest;
  }

  lemma Regroup<T>(a: seq<T>, b: seq<T>, c: seq<T>, d: seq<T>, e: seq<T>)
    ensures a + b + c + d + e == a + b + (c + d + e)
  {
  }

  /** The first part, if there is a slash after it. */
  lemma FirstPart(a: string) returns (part: string, rest: string)
    requires Find(a, {'/'}) < |a|
    ensures a == part + ['/'] + rest && '/' !in part
  {
    var k := Find(a, {'/'});
    part, rest := a[..k], a[k + 1..];
    assert a[k] == '/';
    assert forall i :: 0 <= i < k ==> part[i] == a[i] && a[i] != '/';
  }

  lemma {:induction false} SplitJoin(a: string, b: string)
    ensures Split(a + ['/'] + b) == Split(a) + Split(b)
    decreases |a|
  {
    if Find(a, {'/'}) == |a| {
      SplitFirst(a + ['/'] + b, a, b);
    } else {
      var part, rest := FirstPart(a);
      SplitFirst(a, part, rest);
      SplitJoin(rest, b);
      Regroup(part, ['/'], rest, ['/'], b);
      SplitFirst(a + ['/'] + b, part, rest + ['/'] + b);
      SeqAssoc([part], Split(rest), Split(b));
    }
  }

  lemma SeqAssoc<T>(a: seq<T>, b: seq<T>, c: seq<T>)
    ensures a + (b + c) == a + b + c
  {
  }

  lemma {:induction false} ReduceConcat(stack: seq<string>, parts: seq<string>, more: seq<string>)
    ensures Reduce(stack, parts + more) == Reduce(Reduce(stack, parts), more)
    decreases |parts|
  {
    if parts == [] {
      assert parts + more == more;
    } else {
      assert (parts + more)[1..] == parts[1..] + more;
      ReduceConcat(Push(stack, parts[0]), parts[1..], more);
    }
  }

  lemma {:induction false} ReduceOrdinary(stack: seq<string>, parts: seq<string>, more: seq<string>)
    requires forall i :: 0 <= i < |parts| ==> Ordinary(parts[i])
    ensures Reduce(stack, parts + more) == Reduce(stack + parts, more)
    decreases |parts|
  {
    if parts == [] {
      assert stack + [] == stack && parts + more == more;
    } else {
      assert Ordinary(parts[0]);
      assert (parts + more)[1..] == parts[1..] + more;
      assert stack + [parts[0]] + parts[1..] == stack + parts;
      ReduceOrdinary(stack + [parts[0]], parts[1..], more);
    }
  }
}
