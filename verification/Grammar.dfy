/** Regular expressions by the texts they match. */
module Regex {

  datatype Regex =
    | Class(holds: char -> bool)
    | Cat(first: Regex, second: Regex)
    | Star(body: Regex)
    | UpTo(body: Regex, most: nat)

  ghost predicate Matches(r: Regex, s: string)
    decreases |s|, r
  {
    match r
    case Class(holds) => |s| == 1 && holds(s[0])
    case Cat(a, b) => exists k :: 0 <= k <= |s| && Matches(a, s[..k]) && Matches(b, s[k..])
    case Star(a) => s == "" || exists k :: 0 < k <= |s| && Matches(a, s[..k]) && Matches(r, s[k..])
    case UpTo(a, n) =>
      s == "" || (n > 0 && exists k :: 0 < k <= |s| && Matches(a, s[..k]) && Matches(UpTo(a, n - 1), s[k..]))
  }

  lemma CatIntro(a: Regex, b: Regex, x: string, y: string)
    requires Matches(a, x) && Matches(b, y)
    ensures Matches(Cat(a, b), x + y)
  {
    var s := x + y;
    assert s[..|x|] == x && s[|x|..] == y;
  }

  lemma CatParts(a: Regex, b: Regex, s: string) returns (x: string, y: string)
    requires Matches(Cat(a, b), s)
    ensures s == x + y && Matches(a, x) && Matches(b, y)
  {
    var k :| 0 <= k <= |s| && Matches(a, s[..k]) && Matches(b, s[k..]);
    x, y := s[..k], s[k..];
  }

  lemma StarIntro(a: Regex, x: string, y: string)
    requires x != "" && Matches(a, x) && Matches(Star(a), y)
    ensures Matches(Star(a), x + y)
  {
    var s := x + y;
    assert s[..|x|] == x && s[|x|..] == y;
  }

  lemma StarParts(a: Regex, s: string) returns (x: string, y: string)
    requires s != "" && Matches(Star(a), s)
    ensures s == x + y && x != "" && Matches(a, x) && Matches(Star(a), y)
  {
    var k :| 0 < k <= |s| && Matches(a, s[..k]) && Matches(Star(a), s[k..]);
    x, y := s[..k], s[k..];
  }

  ghost predicate All(holds: char -> bool, s: string)
  {
    forall i :: 0 <= i < |s| ==> holds(s[i])
  }

  /** Any number of characters of a class. */
  lemma {:induction false} StarOfClass(holds: char -> bool, s: string)
    ensures Matches(Star(Class(holds)), s) <==> All(holds, s)
    decreases |s|
  {
    if s != "" {
      StarOfClass(holds, s[1..]);
      if Matches(Star(Class(holds)), s) {
        var x, y := StarParts(Class(holds), s);
        assert y == s[1..] && x[0] == s[0];
      }
      if All(holds, s) {
        assert s == s[..1] + s[1..];
        StarIntro(Class(holds), s[..1], s[1..]);
      }
    }
  }

  /** Up to n of them. */
  lemma {:induction false} UpToOfClass(holds: char -> bool, n: nat, s: string)
    ensures Matches(UpTo(Class(holds), n), s) <==> |s| <= n && All(holds, s)
    decreases |s|
  {
    if s != "" && n > 0 {
      UpToOfClass(holds, n - 1, s[1..]);
      if Matches(UpTo(Class(holds), n), s) {
        var k :| 0 < k <= |s| && Matches(Class(holds), s[..k]) && Matches(UpTo(Class(holds), n - 1), s[k..]);
        assert k == 1;
      }
      if |s| <= n && All(holds, s) {
        assert Matches(Class(holds), s[..1]);
      }
    }
  }
}

/** The expressions of pkg/registry/distribution.go, and that the predicates on names and tags are them. */
module Grammar {
  import opened Regex
  import opened Distribution
  import Strings

  /** [a-z0-9] */
  function Alnum(): Regex
  {
    Class(c => 'a' <= c <= 'z' || '0' <= c <= '9')
  }

  /** [a-z0-9]+ */
  function Word(): Regex
  {
    Cat(Alnum(), Star(Alnum()))
  }

  /** ([._-][a-z0-9]+)* */
  function Joined(): Regex
  {
    Star(Cat(Class(c => c in "._-"), Word()))
  }

  /** [a-z0-9]+([._-][a-z0-9]+)* */
  function Part(): Regex
  {
    Cat(Word(), Joined())
  }

  /** (/[a-z0-9]+([._-][a-z0-9]+)*)* */
  function MoreParts(): Regex
  {
    Star(Cat(Class(c => c == '/'), Part()))
  }

  function Name(): Regex
  {
    Cat(Part(), MoreParts())
  }

  /** [a-zA-Z0-9_][a-zA-Z0-9._-]{0,127} */
  function Tag(): Regex
  {
    Cat(Class(c => 'a' <= c <= 'z' || 'A' <= c <= 'Z' || '0' <= c <= '9' || c == '_'),
        UpTo(Class(c => 'a' <= c <= 'z' || 'A' <= c <= 'Z' || '0' <= c <= '9' || c in "._-"), 127))
  }

  lemma WordIff(s: string)
    ensures Matches(Word(), s) <==> s != "" && forall i :: 0 <= i < |s| ==> LowerAlnum(s[i])
  {
    if Matches(Word(), s) {
      var x, y := CatParts(Alnum(), Star(Alnum()), s);
      StarOfClass(Alnum().holds, y);
      assert forall i :: 0 <= i < |y| ==> s[1 + i] == y[i];
    }
    if s != "" && forall i :: 0 <= i < |s| ==> LowerAlnum(s[i]) {
      StarOfClass(Alnum().holds, s[1..]);
      CatIntro(Alnum(), Star(Alnum()), s[..1], s[1..]);
      assert s == s[..1] + s[1..];
    }
  }

  /** Nothing, or a separator and a name. */
  predicate IsTail(s: string)
  {
    s == "" || (Separator(s[0]) && IsName(s[1..]))
  }

  lemma NameAndTail(a: string, b: string)
    requires IsName(a) && IsTail(b)
    ensures IsName(a + b)
  {
    var s := a + b;
    assert forall i :: 0 <= i < |a| ==> s[i] == a[i];
    assert forall i :: 0 <= i < |b| ==> s[|a| + i] == b[i];
    if b != "" {
      assert forall i :: 0 < i < |b| ==> b[i] == b[1..][i - 1];
      assert b[|b| - 1] == b[1..][|b| - 2];
    }
  }

  lemma WordIsName(s: string)
    requires Matches(Word(), s)
    ensures IsName(s)
  {
    WordIff(s);
  }

  /** A separator, a text that is a name, and a tail, are a tail. */
  lemma TailOf(sep: string, name: string, tail: string)
    requires |sep| == 1 && Separator(sep[0]) && IsName(name) && IsTail(tail)
    ensures IsTail(sep + name + tail)
  {
    NameAndTail(name, tail);
    assert (sep + name + tail)[1..] == name + tail;
  }

  lemma {:induction false} JoinedIsTail(s: string)
    requires Matches(Joined(), s)
    ensures IsTail(s)
    decreases |s|
  {
    if s != "" {
      var x, y := StarParts(Joined().body, s);
      var sep, word := CatParts(Joined().body.first, Word(), x);
      WordIsName(word);
      JoinedIsTail(y);
      TailOf(sep, word, y);
    }
  }

  lemma PartIsName(s: string)
    requires Matches(Part(), s)
    ensures IsName(s)
  {
    var x, y := CatParts(Word(), Joined(), s);
    WordIsName(x);
    JoinedIsTail(y);
    NameAndTail(x, y);
  }

  lemma {:induction false} MorePartsIsTail(s: string)
    requires Matches(MoreParts(), s)
    ensures IsTail(s)
    decreases |s|
  {
    if s != "" {
      var x, y := StarParts(MoreParts().body, s);
      var sep, part := CatParts(MoreParts().body.first, Part(), x);
      PartIsName(part);
      MorePartsIsTail(y);
      TailOf(sep, part, y);
    }
  }

  /** A name is a word and a tail. */
  lemma {:induction false} NameParts(s: string) returns (word: string, tail: string)
    requires IsName(s)
    ensures s == word + tail && Matches(Word(), word) && IsTail(tail)
  {
    var k := Strings.Find(s, {'.', '_', '-', '/'});
    word, tail := s[..k], s[k..];
    WordIff(word);
    if tail != "" {
      AfterSeparator(s, k);
      assert tail[1..] == s[k + 1..];
    }
  }

  lemma AfterSeparator(s: string, k: nat)
    requires IsName(s) && k < |s| && Separator(s[k])
    ensures IsName(s[k + 1..])
  {
    var rest := s[k + 1..];
    assert k + 1 < |s| && !Separator(s[k + 1]);
    assert forall i :: 0 <= i < |rest| ==> rest[i] == s[k + 1 + i];
  }

  lemma SlashStep(word: string, joined: string, more: string)
    requires Matches(Word(), word) && Matches(Joined(), joined) && Matches(MoreParts(), more)
    ensures Matches(MoreParts(), "/" + (word + joined) + more)
  {
    CatIntro(Word(), Joined(), word, joined);
    CatIntro(MoreParts().body.first, Part(), "/", word + joined);
    StarIntro(MoreParts().body, "/" + (word + joined), more);
  }

  lemma JointStep(sep: string, word: string, joined: string)
    requires |sep| == 1 && sep[0] in "._-" && Matches(Word(), word) && Matches(Joined(), joined)
    ensures Matches(Joined(), sep + word + joined)
  {
    CatIntro(Joined().body.first, Word(), sep, word);
    StarIntro(Joined().body, sep + word, joined);
  }

  /** A tail is what the rest of a name's expression matches. */
  lemma {:induction false} TailParts(s: string) returns (joined: string, more: string)
    requires IsTail(s)
    ensures s == joined + more && Matches(Joined(), joined) && Matches(MoreParts(), more)
    decreases |s|
  {
    if s == "" {
      return "", "";
    }
    var word, rest := NameParts(s[1..]);
    var j, m := TailParts(rest);
    if s[0] == '/' {
      SlashStep(word, j, m);
      joined, more := "", "/" + (word + j) + m;
    } else {
      JointStep(s[..1], word, j);
      joined, more := s[..1] + word + j, m;
    }
    TailJoins(s, word, j, m);
  }

  lemma TailJoins(s: string, word: string, j: string, m: string)
    requires s != "" && s[1..] == word + (j + m)
    ensures s == [s[0]] + (word + j) + m && s == s[..1] + word + j + m
  {
    assert s == [s[0]] + s[1..] && s[..1] == [s[0]];
  }

  /** IsName is nameRegex on a whole text. */
  lemma NameIff(s: string)
    ensures IsName(s) <==> Matches(Name(), s)
  {
    if Matches(Name(), s) {
      var x, y := CatParts(Part(), MoreParts(), s);
      PartIsName(x);
      MorePartsIsTail(y);
      NameAndTail(x, y);
    }
    if IsName(s) {
      var word, tail := NameParts(s);
      var joined, more := TailParts(tail);
      CatIntro(Word(), Joined(), word, joined);
      CatIntro(Part(), MoreParts(), word + joined, more);
      assert s == word + joined + more;
    }
  }

  lemma MatchedIsTag(s: string)
    requires Matches(Tag(), s)
    ensures IsTag(s)
  {
    var first, rest := Tag().first, Tag().second;
    var x, y := CatParts(first, rest, s);
    UpToOfClass(rest.body.holds, 127, y);
    assert s[0] == x[0] && forall i :: 0 <= i < |y| ==> s[1 + i] == y[i];
  }

  lemma TagIsMatched(s: string)
    requires IsTag(s)
    ensures Matches(Tag(), s)
  {
    var first, rest := Tag().first, Tag().second;
    UpToOfClass(rest.body.holds, 127, s[1..]);
    CatIntro(first, rest, s[..1], s[1..]);
    assert s == s[..1] + s[1..];
  }

  /** IsTag is tagRegex on a whole text. */
  lemma TagIff(s: string)
    ensures IsTag(s) <==> Matches(Tag(), s)
  {
    if Matches(Tag(), s) {
      MatchedIsTag(s);
    }
    if IsTag(s) {
      TagIsMatched(s);
    }
  }
}
