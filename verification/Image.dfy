/**
 Image references (pkg/oci/image.go): the printer, the parser, and the key an image tag is advertised
 under. url.Parse is modelled on the characters below, which cover registry hosts with or without a
 port, repositories, tags and digests; no escapes, queries, fragments or bracketed IPv6 hosts.
 */
module Image {
  import opened Prelude
  import opened Strings

  datatype Image = Image(name: string, registry: string, repository: string, tag: string, digest: string)

  datatype ParseError =
    | InvalidReference | InvalidUrl | HostRequired | DigestMismatch
    | NameRequired | RegistryRequired | RepositoryRequired | DigestRequired

  const SCHEME_MARK := "://"

  predicate PlainChar(c: char)
  {
    'a' <= c <= 'z' || 'A' <= c <= 'Z' || '0' <= c <= '9' || c in "._-+:/@"
  }

  predicate Plain(s: string)
  {
    forall c :: c in s ==> PlainChar(c)
  }

  /** url.URL's port check: what follows the last colon is digits only, possibly none. */
  predicate ValidPort(host: string)
  {
    AfterLast(host, ':') > 0 ==> forall i :: AfterLast(host, ':') <= i < |host| ==> '0' <= host[i] <= '9'
  }

  /** A host alone has a valid port, and one with a colon if and only if digits follow it, or nothing. */
  lemma PortIff(host: string, port: string)
    requires ':' !in port
    ensures ValidPort(host + [':'] + port) <==> forall c :: c in port ==> '0' <= c <= '9'
    ensures ':' !in host ==> ValidPort(host)
  {
    var s := host + [':'] + port;
    assert s[|host|] == ':';
    assert forall i :: 0 <= i < |port| ==> s[|host| + 1 + i] == port[i] && port[i] in port;
    assert AfterLast(s, ':') == |host| + 1;
  }

  /** Host and Path of url.Parse("dummy://" + s), or None where it reports an error. */
  function UrlParse(s: string): Option<(string, string)>
    requires Plain(s)
  {
    var slash := Find(s, {'/'});
    var authority := s[..slash];
    var host := authority[AfterLast(authority, '@')..];
    if ValidPort(host) then Some((host, s[slash..])) else None
  }

  function NewImage(name: string, registry: string, repository: string, tag: string,
                    digest: string): Result<Image, ParseError>
  {
    if name == "" then Err(NameRequired)
    else if registry == "" then Err(RegistryRequired)
    else if repository == "" then Err(RepositoryRequired)
    else if digest == "" then Err(DigestRequired)
    else Ok(Image(name, registry, repository, tag, digest))
  }

  /** The text after the repository, without the colon that introduces a tag. */
  function Object(path: string): string
  {
    var i := Find(path, MARKS);
    if i < |path| && path[i] == ':' then path[i + 1..] else path[i..]
  }

  /** splitObject followed by the cut at '@'. */
  function SplitObject(obj: string): (string, string)
  {
    var at := Find(obj, {'@'});
    if at < |obj| then (obj[..at], obj[at + 1..]) else (obj, "")
  }

  function TrimSlash(path: string): string
  {
    if path != "" && path[0] == '/' then path[1..] else path
  }

  function Parse(s: string, extra: string): Result<Image, ParseError>
    requires Plain(s)
  {
    if Contains(s, SCHEME_MARK) then Err(InvalidReference) else
    match UrlParse(s)
    case None => Err(InvalidUrl)
    case Some((host, path)) =>
      if host == "" then Err(HostRequired) else FromPath(s, host, path, extra)
  }

  function FromPath(name: string, host: string, path: string, extra: string): Result<Image, ParseError>
  {
    var (tag, parsed) := SplitObject(Object(path));
    FromParts(name, host, TrimSlash(path[..Find(path, MARKS)]), tag, parsed, extra)
  }

  function FromParts(name: string, host: string, repository: string, tag: string, parsed: string,
                     extra: string): Result<Image, ParseError>
  {
    var digest := if parsed == "" then extra else parsed;
    if extra != "" && digest != extra then Err(DigestMismatch)
    else NewImage(name, host, repository, tag, digest)
  }

  function TagPart(tag: string): string
  {
    if tag == "" then "" else ":" + tag
  }

  function Reference(i: Image): string
  {
    i.registry + "/" + i.repository + TagPart(i.tag)
  }

  function String(i: Image): string
  {
    Reference(i) + "@" + i.digest
  }

  function TagName(i: Image): Option<string>
  {
    if i.tag == "" then None else Some(i.registry + "/" + i.repository + ":" + i.tag)
  }

  predicate IsLatestTag(i: Image)
  {
    i.tag == "latest"
  }

  /* ---------- Printing and parsing are inverse ---------- */

  predicate ValidRegistry(registry: string)
  {
    registry != "" && Plain(registry) && '/' !in registry && '@' !in registry && ValidPort(registry)
  }

  /** The images that survive printing and parsing; by ParsedIsWellFormed, all that Parse ever returns. */
  predicate WellFormed(i: Image)
  {
    && ValidRegistry(i.registry)
    && i.repository != "" && Plain(i.repository) && ':' !in i.repository && '@' !in i.repository
    && Plain(i.tag) && '@' !in i.tag
    && i.digest != "" && Plain(i.digest)
    && !Contains(String(i), SCHEME_MARK)
  }

  lemma UrlParseOfReference(registry: string, rest: string)
    requires ValidRegistry(registry) && Plain(rest)
    ensures Plain(registry + "/" + rest)
    ensures UrlParse(registry + "/" + rest) == Some((registry, "/" + rest))
  {
    var s := registry + "/" + rest;
    assert forall k :: 0 <= k < |s| ==> PlainChar(s[k]);
    assert s[|registry|] == '/';
    assert forall k :: 0 <= k < |registry| ==> s[k] == registry[k] && s[k] != '/';
    assert Find(s, {'/'}) == |registry|;
    assert s[..|registry|] == registry && s[|registry|..] == "/" + rest;
    assert AfterLast(registry, '@') == 0;
  }

  const MARKS: set<char> := {':', '@'}

  predicate IsTail(tail: string)
  {
    tail == "" || tail[0] in MARKS
  }

  /** A path is a slash, the repository, and a tail that decides tag and digest. */
  lemma SplitPath(repository: string, tail: string)
    requires ':' !in repository && '@' !in repository && IsTail(tail)
    ensures var path := "/" + repository + tail;
            TrimSlash(path[..Find(path, MARKS)]) == repository && Object(path) == Object(tail)
  {
    FindAfter("/" + repository, tail, MARKS);
    var path := "/" + repository + tail;
    var n := |repository| + 1;
    assert tail != "" ==> path[n] == tail[0] && path[n + 1..] == tail[1..];
    assert tail[0..] == tail;
  }

  lemma SplitTail(tag: string, digest: string)
    requires '@' !in tag && digest != ""
    ensures var tail := TagPart(tag) + "@" + digest;
            IsTail(tail) && SplitObject(Object(tail)) == (tag, digest)
  {
    var tail := TagPart(tag) + "@" + digest;
    FindAfter(tag, "@" + digest, {'@'});
    assert Object(tail) == tag + ("@" + digest);
    assert ("@" + digest)[1..] == digest;
    assert (tag + ("@" + digest))[|tag| + 1..] == digest;
  }

  lemma PlainConcat(a: string, b: string)
    ensures Plain(a + b) <==> Plain(a) && Plain(b)
  {
    assert forall c :: c in a + b <==> c in a || c in b;
  }

  lemma PlainString(i: Image)
    requires Plain(i.registry) && Plain(i.repository) && Plain(i.tag) && Plain(i.digest)
    ensures Plain(String(i)) && Plain(Reference(i))
  {
    PlainConcat(i.registry, "/");
    PlainConcat(i.registry + "/", i.repository);
    PlainConcat(":", i.tag);
    PlainConcat(i.registry + "/" + i.repository, TagPart(i.tag));
    PlainConcat(Reference(i), "@");
    PlainConcat(Reference(i) + "@", i.digest);
  }

  lemma FromPathOf(name: string, host: string, repository: string, tail: string, extra: string)
    requires ':' !in repository && '@' !in repository && IsTail(tail)
    ensures var (tag, parsed) := SplitObject(Object(tail));
            FromPath(name, host, "/" + repository + tail, extra) ==
                FromParts(name, host, repository, tag, parsed, extra)
  {
    SplitPath(repository, tail);
  }

  /** Parsing a text that is visibly registry, repository and tail. */
  lemma ParseOf(s: string, registry: string, repository: string, tail: string, extra: string)
    requires ValidRegistry(registry) && Plain(repository) && Plain(tail)
    requires ':' !in repository && '@' !in repository && IsTail(tail)
    requires s == registry + "/" + repository + tail && !Contains(s, SCHEME_MARK)
    ensures var (tag, parsed) := SplitObject(Object(tail));
            Plain(s) && Parse(s, extra) == FromParts(s, registry, repository, tag, parsed, extra)
  {
    PlainConcat(repository, tail);
    var rest := repository + tail;
    assert s == registry + "/" + rest;
    UrlParseOfReference(registry, rest);
    assert "/" + rest == "/" + repository + tail;
    FromPathOf(s, registry, repository, tail, extra);
  }

  /**
   Round trip: parsing the printed form gives back registry, repository, tag and digest when no digest or
   the same digest is supplied, and is refused for every other digest.
   */
  lemma RoundTrip(i: Image, d: string)
    requires WellFormed(i)
    ensures Plain(String(i))
    ensures Parse(String(i), d) == if d == "" || d == i.digest then Ok(i.(name := String(i))) else Err(DigestMismatch)
  {
    PlainString(i);
    var start, tail := i.registry + "/" + i.repository, TagPart(i.tag) + "@" + i.digest;
    assert String(i) == start + tail;
    PlainConcat(start, tail);
    SplitTail(i.tag, i.digest);
    ParseOf(String(i), i.registry, i.repository, tail, d);
  }

  /** No occurrence of "://" straddles an '@'. */
  lemma NoMarkAcrossAt(x: string, y: string)
    requires !Contains(x, SCHEME_MARK) && !Contains(y, SCHEME_MARK)
    ensures !Contains(x + "@" + y, SCHEME_MARK)
  {
    var s := x + "@" + y;
    if Contains(s, SCHEME_MARK) {
      var k: nat :| k <= |s| && OccursAt(s, SCHEME_MARK, k);
      assert s[k] == s[k..k + 3][0] && s[k + 1] == s[k..k + 3][1] && s[k + 2] == s[k..k + 3][2];
      assert s[|x|] == '@';
      if k + 2 < |x| {
        assert x[k..k + 3] == s[k..k + 3];
        assert OccursAt(x, SCHEME_MARK, k);
      } else {
        assert k > |x|;
        var m := k - |x| - 1;
        assert y[m..m + 3] == s[k..k + 3];
        assert OccursAt(y, SCHEME_MARK, m);
      }
    }
  }

  /* Where the parts of a parsed text lie in it. */

  lemma UrlSlices(s: string) returns (start: nat, slash: nat)
    requires Plain(s) && UrlParse(s).Some?
    ensures start <= slash <= |s|
    ensures UrlParse(s).value == (s[start..slash], s[slash..])
    ensures slash < |s| ==> s[slash] == '/'
    ensures var host := s[start..slash]; '/' !in host && '@' !in host && ValidPort(host)
  {
    slash := Find(s, {'/'});
    start := AfterLast(s[..slash], '@');
    assert s[..slash][start..] == s[start..slash];
  }

  lemma PathSlices(path: string) returns (n: nat)
    requires path == "" || path[0] == '/'
    ensures n == Find(path, MARKS)
    ensures path == "" || (n > 0 && TrimSlash(path[..n]) == path[1..n])
    ensures ':' !in TrimSlash(path[..n]) && '@' !in TrimSlash(path[..n])
  {
    n := Find(path, MARKS);
  }

  lemma ObjectSlice(path: string, n: nat) returns (skip: nat)
    requires n == Find(path, MARKS)
    ensures n <= skip <= |path| && Object(path) == path[skip..]
    ensures skip > n ==> skip == n + 1 && path[n] == ':'
    ensures skip == n < |path| ==> path[n] == '@'
  {
    skip := if n < |path| && path[n] == ':' then n + 1 else n;
  }

  lemma SplitSlices(obj: string) returns (at: nat)
    ensures at <= |obj| && SplitObject(obj).0 == obj[..at] && '@' !in obj[..at]
    ensures obj != "" && obj[0] == '@' ==> at == 0
    ensures SplitObject(obj).1 == "" || (at < |obj| && SplitObject(obj).1 == obj[at + 1..])
  {
    at := Find(obj, {'@'});
    assert obj[..|obj|] == obj;
  }

  lemma SliceOfTail(s: string, slash: nat, i: nat, j: nat)
    requires slash <= |s| && i <= j <= |s| - slash
    ensures s[slash..][i..j] == s[slash + i..slash + j]
  {
  }

  /** The tag part is a slice starting where the repository ends, and the digest is a slice too. */
  lemma TailSlices(path: string, n: nat) returns (m: nat)
    requires n == Find(path, MARKS)
    ensures n <= m <= |path| && '@' !in SplitObject(Object(path)).0 &&
            TagPart(SplitObject(Object(path)).0) == path[n..m]
    ensures SplitObject(Object(path)).1 != "" ==>
              exists k :: n <= k <= |path| && SplitObject(Object(path)).1 == path[k..]
  {
    var skip := ObjectSlice(path, n);
    var at := SplitSlices(path[skip..]);
    SliceOfTail(path, skip, 0, at);
    m := if at == 0 then n else skip + at;
    if at > 0 {
      assert path[n..m] == [path[n]] + path[n + 1..m];
    }
    if SplitObject(Object(path)).1 != "" {
      SliceOfTail(path, skip, at + 1, |path| - skip);
      assert path[skip..][at + 1..] == path[skip + at + 1..];
    }
  }

  lemma JoinSlices(s: string, a: nat, b: nat, c: nat, d: nat)
    requires a <= b < c <= d <= |s|
    ensures s[a..b] + s[b..b + 1] + s[b + 1..c] + s[c..d] == s[a..d]
  {
  }

  lemma ReferenceStretch(s: string, start: nat, slash: nat, n: nat, m: nat, i: Image)
    requires start <= slash && slash + n <= slash + m <= |s| && n > 0 && s[slash] == '/'
    requires i.registry == s[start..slash] && i.repository == s[slash..][1..n] && TagPart(i.tag) == s[slash..][n..m]
    ensures Contains(s, Reference(i))
  {
    SliceOfTail(s, slash, 1, n);
    SliceOfTail(s, slash, n, m);
    JoinSlices(s, start, slash, slash + n, slash + m);
    assert s[slash..slash + 1] == "/";
    assert OccursAt(s, Reference(i), start);
  }

  /** A successful parse, unfolded. */
  lemma ParseUnfolds(s: string, extra: string)
    requires Plain(s) && Parse(s, extra).Ok?
    ensures UrlParse(s).Some?
    ensures var i := Parse(s, extra).value;
            var (host, path) := UrlParse(s).value;
            var (tag, parsed) := SplitObject(Object(path));
            && i == Image(s, host, TrimSlash(path[..Find(path, MARKS)]), tag, if parsed == "" then extra else parsed)
            && i.registry != "" && i.repository != "" && i.digest != ""
  {
  }

  lemma SuffixStretch(s: string, slash: nat, k: nat)
    requires slash + k <= |s|
    ensures Contains(s, s[slash..][k..])
  {
    assert s[slash..][k..] == s[slash + k..];
    assert OccursAt(s, s[slash..][k..], slash + k);
  }

  lemma StretchesOf(s: string, start: nat, slash: nat, i: Image, digest: string)
    requires start <= slash < |s| && s[slash] == '/' && i.registry == s[start..slash]
    requires var path := s[slash..];
             i.repository == TrimSlash(path[..Find(path, MARKS)]) && (i.tag, digest) == SplitObject(Object(path))
    ensures Contains(s, Reference(i)) && (digest == "" || Contains(s, digest))
    ensures ':' !in i.repository && '@' !in i.repository && '@' !in i.tag
  {
    var path := s[slash..];
    var n := PathSlices(path);
    var m := TailSlices(path, n);
    ReferenceStretch(s, start, slash, n, m, i);
    if digest != "" {
      var k :| n <= k <= |path| && digest == path[k..];
      SuffixStretch(s, slash, k);
    }
  }

  /** The reference is a stretch of the parsed text, and so is a digest that was not supplied. */
  lemma ParsedStretches(s: string, extra: string, i: Image)
    requires Plain(s) && Parse(s, extra) == Ok(i)
    ensures Contains(s, Reference(i)) && (i.digest == extra || Contains(s, i.digest))
    ensures i.registry != "" && '/' !in i.registry && '@' !in i.registry && ValidPort(i.registry)
    ensures i.repository != "" && ':' !in i.repository && '@' !in i.repository
    ensures '@' !in i.tag && i.digest != ""
  {
    ParseUnfolds(s, extra);
    var start, slash := UrlSlices(s);
    StretchesOf(s, start, slash, i, SplitObject(Object(s[slash..])).1);
  }

  lemma PlainStretch(s: string, t: string)
    requires Plain(s) && Contains(s, t)
    ensures Plain(t)
  {
    var i: nat :| i <= |s| && OccursAt(s, t, i);
    assert forall k :: 0 <= k < |t| ==> t[k] == s[i..i + |t|][k] == s[i + k];
  }

  /** Parse returns only well-formed images, so RoundTrip covers every image the program handles. */
  lemma ParsedIsWellFormed(s: string, extra: string)
    requires Plain(s) && Plain(extra) && !Contains(extra, SCHEME_MARK)
    ensures Parse(s, extra).Ok? ==> WellFormed(Parse(s, extra).value)
  {
    if Parse(s, extra).Ok? {
      var i := Parse(s, extra).value;
      ParsedStretches(s, extra, i);
      PlainStretch(s, Reference(i));
      PlainReference(i);
      StretchContains(s, Reference(i), SCHEME_MARK);
      if i.digest != extra {
        PlainStretch(s, i.digest);
        StretchContains(s, i.digest, SCHEME_MARK);
      }
      NoMarkAcrossAt(Reference(i), i.digest);
    }
  }

  lemma PlainReference(i: Image)
    requires Plain(Reference(i))
    ensures Plain(i.registry) && Plain(i.repository) && Plain(i.tag)
  {
    PlainConcat(i.registry, "/");
    PlainConcat(i.registry + "/", i.repository);
    PlainConcat(":", i.tag);
    PlainConcat(i.registry + "/" + i.repository, TagPart(i.tag));
  }

  /** Why a text does not parse: the first thing that is wrong with it. */
  lemma ParseFailures(s: string, extra: string)
    requires Plain(s)
    ensures Parse(s, extra) == Err(InvalidReference) <==> Contains(s, "://")
    ensures Parse(s, extra) == Err(InvalidUrl) <==> !Contains(s, "://") && UrlParse(s).None?
    ensures Parse(s, extra) == Err(HostRequired) <==>
            !Contains(s, "://") && UrlParse(s).Some? && UrlParse(s).value.0 == ""
    ensures Parse(s, extra) != Err(NameRequired) && Parse(s, extra) != Err(RegistryRequired)
    ensures Parse(s, extra) == Err(DigestMismatch) ==> extra != ""
    ensures Parse(s, extra) == Err(DigestRequired) ==> extra == ""
  {
  }

  /**
   Without a supplied digest a reference parses only if it carries one. Subscribe parses the name of a
   deleted image this way, so a delete event for a name without "@" is reported as an error and
   never reaches the state tracker.
   */
  lemma NoDigestNoImage(s: string)
    requires Plain(s) && '@' !in s
    ensures Parse(s, "").Err?
  {
    if Parse(s, "").Ok? {
      var path := s[Find(s, {'/'})..];
      var obj := Object(path);
      assert forall c :: c in obj ==> c in s;
    }
  }
}
