/**
 Request paths (pkg/registry/distribution.go): the three regular expressions over
 /v2/<name>/manifests/<reference> and /v2/<name>/blobs/<reference>, after the "Pull" section of the OCI
 Distribution Specification, and the key a mirror request is looked up under.
 */
module Distribution {
  import opened Prelude
  import opened Strings
  import Image

  datatype Kind = Manifest | Blob

  datatype Reference = Reference(kind: Kind, name: string, digest: string, originalRegistry: string)

  datatype PathError = RegistryNotSet | Unparsable

  const V2 := "/v2/"
  const MANIFESTS := "/manifests/"
  const BLOBS := "/blobs/"

  /* ---------- Regular expressions ---------- */

  predicate LowerAlnum(c: char)
  {
    'a' <= c <= 'z' || '0' <= c <= '9'
  }

  predicate Separator(c: char)
  {
    c in {'.', '_', '-', '/'}
  }

  /** nameRegex: runs of [a-z0-9] joined by single characters of [._-] or by a slash. */
  predicate IsName(s: string)
  {
    && s != "" && LowerAlnum(s[0]) && LowerAlnum(s[|s| - 1])
    && (forall i :: 0 <= i < |s| ==> LowerAlnum(s[i]) || Separator(s[i]))
    && (forall i :: 0 < i < |s| && Separator(s[i]) ==> LowerAlnum(s[i - 1]))
  }

  predicate TagStart(c: char)
  {
    'a' <= c <= 'z' || 'A' <= c <= 'Z' || '0' <= c <= '9' || c == '_'
  }

  /** tagRegex on a whole string. */
  predicate IsTag(s: string)
  {
    1 <= |s| <= 128 && TagStart(s[0]) && forall i :: 0 <= i < |s| ==> TagStart(s[i]) || s[i] == '.' || s[i] == '-'
  }

  /** A name is never empty, so a match's name ends after the marker. */
  predicate NameAt(path: string, i: nat, j: nat)
  {
    i + |V2| <= j <= |path| && path[i..i + |V2|] == V2 && IsName(path[i + |V2|..j])
  }

  /** A match starting at i whose name group ends at j; with tagOnly the rest has to be a tag up to the end. */
  predicate MatchAt(path: string, mid: string, tagOnly: bool, i: nat, j: nat)
  {
    && NameAt(path, i, j)
    && OccursAt(path, mid, j)
    && (tagOnly ==> IsTag(path[j + |mid|..]))
  }

  /** The quantifiers are greedy and the name grammar is deterministic: the longest name wins. */
  function LongestName(path: string, mid: string, tagOnly: bool, i: nat, bound: nat): (r: Option<nat>)
    ensures r.Some? ==> r.value < bound && MatchAt(path, mid, tagOnly, i, r.value)
    ensures forall j: nat :: j < bound && MatchAt(path, mid, tagOnly, i, j) ==> r.Some? && j <= r.value
  {
    if bound == 0 then None
    else if MatchAt(path, mid, tagOnly, i, bound - 1) then Some(bound - 1)
    else LongestName(path, mid, tagOnly, i, bound - 1)
  }

  /** The expressions are not anchored at the start: the leftmost match from position i on. */
  function Leftmost(path: string, mid: string, tagOnly: bool, i: nat): (r: Option<(nat, nat)>)
    requires i <= |path|
    ensures r.Some? ==> i <= r.value.0 && MatchAt(path, mid, tagOnly, r.value.0, r.value.1)
    ensures r.Some? ==> forall j: nat :: MatchAt(path, mid, tagOnly, r.value.0, j) ==> j <= r.value.1
    ensures forall k: nat, j: nat :: i <= k && MatchAt(path, mid, tagOnly, k, j) ==> r.Some? && r.value.0 <= k
    decreases |path| - i
  {
    match LongestName(path, mid, tagOnly, i, |path| + 1)
    case Some(j) => Some((i, j))
    case None => if i == |path| then None else Leftmost(path, mid, tagOnly, i + 1)
  }

  /** FindStringSubmatch, groups 1 and 5; "." does not match a newline. */
  function Submatch(path: string, mid: string, tagOnly: bool): Option<(string, string)>
  {
    match Leftmost(path, mid, tagOnly, 0)
    case None => None
    case Some((i, j)) =>
      var rest := path[j + |mid|..];
      Some((path[i + |V2|..j], Line(rest)))
  }

  function ParsePathComponents(originalRegistry: string, path: string): Result<Reference, PathError>
  {
    match Submatch(path, MANIFESTS, true)
    case Some((name, tag)) =>
      if originalRegistry == "" then Err(RegistryNotSet)
      else Ok(Reference(Manifest, originalRegistry + "/" + name + ":" + tag, "", originalRegistry))
    case None =>
      match Submatch(path, MANIFESTS, false)
      case Some((_, digest)) => Ok(Reference(Manifest, "", digest, originalRegistry))
      case None =>
        match Submatch(path, BLOBS, false)
        case Some((_, digest)) => Ok(Reference(Blob, "", digest, originalRegistry))
        case None => Err(Unparsable)
  }

  predicate HasLatestTag(name: string)
  {
    name != "" && CutAfter(name, ':') == "latest"
  }

  /** The key handleMirror resolves. */
  function Key(ref: Reference): string
  {
    if ref.digest == "" then ref.name else ref.digest
  }

  /* ---------- Canonical paths ---------- */

  function Path(name: string, mid: string, reference: string): string
  {
    V2 + name + mid + reference
  }

  predicate NoSlashOrNewline(s: string)
  {
    '/' !in s && '\n' !in s
  }

  lemma PathText(name: string, reference: string)
    ensures Path(name, MANIFESTS, reference) == "/v2/" + name + "/manifests/" + reference
    ensures Path(name, BLOBS, reference) == "/v2/" + name + "/blobs/" + reference
  {
  }

  lemma PathParts(name: string, mid: string, reference: string)
    ensures var path := Path(name, mid, reference);
            var n := |V2| + |name|;
            && |path| == n + |mid| + |reference|
            && path[0..|V2|] == V2 && path[|V2|..n] == name
            && path[n..n + |mid|] == mid && path[n + |mid|..] == reference
  {
  }

  lemma OccursChar(s: string, t: string, i: nat, k: nat)
    requires OccursAt(s, t, i) && k < |t|
    ensures s[i + k] == t[k]
  {
    assert s[i..i + |t|][k] == s[i + k];
  }

  /** Nothing after the reference starts is a slash, and the character before it is one. */
  lemma LastSlash(name: string, mid: string, reference: string)
    requires mid in {MANIFESTS, BLOBS} && '/' !in reference
    ensures var path, end := Path(name, mid, reference), |V2| + |name| + |mid|;
            path[end - 1] == '/' && forall m :: end <= m < |path| ==> path[m] != '/'
  {
    PathParts(name, mid, reference);
    var path, end := Path(name, mid, reference), |V2| + |name| + |mid|;
    assert path[end - 1] == mid[|mid| - 1];
    forall m | end <= m < |path|
      ensures path[m] != '/'
    {
      assert path[m] == reference[m - end];
      assert reference[m - end] in reference;
    }
  }

  /** On a canonical path a separator cannot end later than the one that precedes the reference. */
  lemma MatchEndsBefore(name: string, mid: string, reference: string, mid': string, j: nat)
    requires mid in {MANIFESTS, BLOBS} && mid' in {MANIFESTS, BLOBS} && '/' !in reference
    requires OccursAt(Path(name, mid, reference), mid', j)
    ensures j + |mid'| <= |V2| + |name| + |mid|
  {
    LastSlash(name, mid, reference);
    OccursChar(Path(name, mid, reference), mid', j, |mid'| - 1);
  }

  /** And if a tag follows it to the end, it is the one that precedes the reference. */
  lemma TagMatchEndsAt(name: string, mid: string, reference: string, mid': string, j: nat)
    requires mid in {MANIFESTS, BLOBS} && mid' in {MANIFESTS, BLOBS} && '/' !in reference
    requires OccursAt(Path(name, mid, reference), mid', j) && IsTag(Path(name, mid, reference)[j + |mid'|..])
    ensures j + |mid'| == |V2| + |name| + |mid| && IsTag(reference)
  {
    var path, end, end' := Path(name, mid, reference), |V2| + |name| + |mid|, j + |mid'|;
    LastSlash(name, mid, reference);
    MatchEndsBefore(name, mid, reference, mid', j);
    assert forall m :: end' <= m < |path| ==> path[m] == path[end'..][m - end'] && path[m] != '/';
    PathParts(name, mid, reference);
  }

  /** The two separators cannot end at the same place. */
  lemma SeparatorsDiffer(name: string, reference: string, j: nat)
    requires OccursAt(Path(name, BLOBS, reference), MANIFESTS, j)
    ensures j + |MANIFESTS| != |V2| + |name| + |BLOBS|
  {
    PathParts(name, BLOBS, reference);
    var path, n := Path(name, BLOBS, reference), |V2| + |name|;
    assert OccursAt(path, BLOBS, n);
    OccursChar(path, BLOBS, n, 4);
    OccursChar(path, MANIFESTS, j, 8);
  }

  lemma CanonicalLeftmost(name: string, mid: string, reference: string, tagOnly: bool)
    requires IsName(name) && mid in {MANIFESTS, BLOBS} && '/' !in reference
    requires tagOnly ==> IsTag(reference)
    ensures Leftmost(Path(name, mid, reference), mid, tagOnly, 0) == Some((0, |V2| + |name|))
  {
    PathParts(name, mid, reference);
    var path, n := Path(name, mid, reference), |V2| + |name|;
    assert OccursAt(path, mid, n) && NameAt(path, 0, n);
    assert MatchAt(path, mid, tagOnly, 0, n);
    MatchEndsBefore(name, mid, reference, mid, Leftmost(path, mid, tagOnly, 0).value.1);
  }

  lemma CanonicalMatch(name: string, mid: string, reference: string, tagOnly: bool)
    requires IsName(name) && mid in {MANIFESTS, BLOBS} && NoSlashOrNewline(reference)
    requires tagOnly ==> IsTag(reference)
    ensures Submatch(Path(name, mid, reference), mid, tagOnly) == Some((name, reference))
  {
    CanonicalLeftmost(name, mid, reference, tagOnly);
    PathParts(name, mid, reference);
    assert Find(reference, {'\n'}) == |reference|;
    assert reference[..|reference|] == reference;
  }

  lemma TagIsPlainText(tag: string)
    requires IsTag(tag)
    ensures NoSlashOrNewline(tag) && ':' !in tag && '@' !in tag && tag != "" && Image.Plain(tag)
  {
  }

  /** A tag path gives exactly the tag reference, or the demand for a registry. */
  lemma TagPath(registry: string, name: string, tag: string)
    requires IsName(name) && IsTag(tag)
    ensures ParsePathComponents(registry, Path(name, MANIFESTS, tag)) ==
            if registry == "" then Err(RegistryNotSet)
            else Ok(Reference(Manifest, registry + "/" + name + ":" + tag, "", registry))
  {
    TagIsPlainText(tag);
    CanonicalMatch(name, MANIFESTS, tag, true);
  }

  lemma NoTagMatch(name: string, mid: string, reference: string)
    requires mid in {MANIFESTS, BLOBS} && '/' !in reference && (mid == MANIFESTS ==> !IsTag(reference))
    ensures Submatch(Path(name, mid, reference), MANIFESTS, true) == None
  {
    var path := Path(name, mid, reference);
    if Leftmost(path, MANIFESTS, true, 0).Some? {
      var (i, j) := Leftmost(path, MANIFESTS, true, 0).value;
      TagMatchEndsAt(name, mid, reference, MANIFESTS, j);
      if mid == BLOBS {
        SeparatorsDiffer(name, reference, j);
      }
    }
  }

  /* References may have slashes; what decides is the last separator. */

  /** No separator starts after the one that precedes the reference. */
  predicate LastSeparator(reference: string)
  {
    '\n' !in reference && NoFurther(reference)
  }

  predicate NoFurther(reference: string)
  {
    !Contains("/" + reference, MANIFESTS)
  }

  /** A separator of a manifest path is no later than the one that precedes such a reference. */
  lemma SeparatorNoLater(name: string, reference: string, j: nat)
    requires NoFurther(reference) && OccursAt(Path(name, MANIFESTS, reference), MANIFESTS, j)
    ensures j <= |V2| + |name|
  {
    var path, n := Path(name, MANIFESTS, reference), |V2| + |name|;
    var last := n + |MANIFESTS| - 1;
    SlashesOfSeparator(name, reference);
    OccursChar(path, MANIFESTS, j, 0);
    if j >= last {
      OccursInEnd(path, MANIFESTS, last, j);
    }
  }

  lemma SlashesOfSeparator(name: string, reference: string)
    ensures var path, n := Path(name, MANIFESTS, reference), |V2| + |name|;
            var last := n + |MANIFESTS| - 1;
            && (forall m :: n < m < last ==> path[m] != '/')
            && path[last] == '/' && path[last..] == "/" + reference
  {
    var path, n := Path(name, MANIFESTS, reference), |V2| + |name|;
    PathParts(name, MANIFESTS, reference);
    assert forall m :: n <= m < n + |MANIFESTS| ==> path[m] == MANIFESTS[m - n];
  }

  /** An earlier one is not followed by a tag. */
  lemma EarlierIsNoTag(name: string, reference: string, j: nat)
    requires OccursAt(Path(name, MANIFESTS, reference), MANIFESTS, j) && j < |V2| + |name|
    ensures !IsTag(Path(name, MANIFESTS, reference)[j + |MANIFESTS|..])
  {
    var path, last, rest := Path(name, MANIFESTS, reference), |V2| + |name| + |MANIFESTS| - 1, j + |MANIFESTS|;
    SlashesOfSeparator(name, reference);
    assert path[rest..][last - rest] == '/';
  }

  /** A manifest path recovers its digest, slashes and all, exactly when it does not read as a tag. */
  lemma ManifestDigestPath(registry: string, name: string, digest: string)
    requires IsName(name) && LastSeparator(digest)
    ensures ParsePathComponents(registry, Path(name, MANIFESTS, digest)) ==
            Ok(Reference(Manifest, "", digest, registry)) <==>
            !IsTag(digest)
  {
    if IsTag(digest) {
      TagPath(registry, name, digest);
    } else {
      NoTagInDigest(name, digest);
      WholeReference(name, digest);
      LineOf(digest, "");
    }
  }

  lemma NoTagInDigest(name: string, digest: string)
    requires NoFurther(digest) && !IsTag(digest)
    ensures Submatch(Path(name, MANIFESTS, digest), MANIFESTS, true) == None
  {
    var path := Path(name, MANIFESTS, digest);
    PathParts(name, MANIFESTS, digest);
    if Leftmost(path, MANIFESTS, true, 0).Some? {
      var (i, j) := Leftmost(path, MANIFESTS, true, 0).value;
      SeparatorNoLater(name, digest, j);
      if j < |V2| + |name| {
        EarlierIsNoTag(name, digest, j);
      }
    }
  }

  lemma WholeName(name: string, digest: string)
    requires IsName(name) && NoFurther(digest)
    ensures Leftmost(Path(name, MANIFESTS, digest), MANIFESTS, false, 0) == Some((0, |V2| + |name|))
  {
    var path, n := Path(name, MANIFESTS, digest), |V2| + |name|;
    PathParts(name, MANIFESTS, digest);
    assert OccursAt(path, MANIFESTS, n) && NameAt(path, 0, n);
    assert MatchAt(path, MANIFESTS, false, 0, n);
    SeparatorNoLater(name, digest, Leftmost(path, MANIFESTS, false, 0).value.1);
  }

  lemma WholeReference(name: string, digest: string)
    requires IsName(name) && NoFurther(digest)
    ensures Submatch(Path(name, MANIFESTS, digest), MANIFESTS, false) == Some((name, Line(digest)))
  {
    WholeName(name, digest);
    PathParts(name, MANIFESTS, digest);
  }

  /** What comes before a newline. */
  function Line(s: string): string
  {
    s[..Find(s, {'\n'})]
  }

  lemma LineOf(s: string, rest: string)
    requires '\n' !in s
    ensures Line(s) == s && Line(s + ['\n'] + rest) == s
  {
    assert Find(s, {'\n'}) == |s|;
    FindAfter(s, ['\n'] + rest, {'\n'});
    assert s + ['\n'] + rest == s + (['\n'] + rest);
  }

  /** The dot of the expression stops at a newline, and so does the digest. */
  lemma DigestEndsAtNewline(registry: string, name: string, first: string, rest: string)
    requires IsName(name) && NoFurther(first + ['\n'] + rest) && '\n' !in first
    ensures ParsePathComponents(registry, Path(name, MANIFESTS, first + ['\n'] + rest)) ==
            Ok(Reference(Manifest, "", first, registry))
  {
    var reference := first + ['\n'] + rest;
    assert reference[|first|] == '\n';
    LineOf(first, rest);
    NoTagInDigest(name, reference);
    WholeReference(name, reference);
  }

  lemma SimpleReference(reference: string)
    requires NoSlashOrNewline(reference)
    ensures LastSeparator(reference)
  {
    var s := "/" + reference;
    assert forall m :: 0 < m < |s| ==> s[m] == reference[m - 1] && s[m] in reference;
    forall i: nat | OccursAt(s, MANIFESTS, i)
      ensures false
    {
      OccursChar(s, MANIFESTS, i, |MANIFESTS| - 1);
    }
  }

  lemma ManifestsInsideName(name: string, digest: string, j: nat)
    requires '/' !in digest && j > |V2|
    requires OccursAt(Path(name, BLOBS, digest), MANIFESTS, j)
    ensures Contains(name + "/", MANIFESTS)
  {
    var path, n, last := Path(name, BLOBS, digest), |V2| + |name|, j + |MANIFESTS| - 1;
    PathParts(name, BLOBS, digest);
    MatchEndsBefore(name, BLOBS, digest, MANIFESTS, j);
    SeparatorsDiffer(name, digest, j);
    OccursChar(path, MANIFESTS, j, |MANIFESTS| - 1);
    NoSlashInBlobs(name, digest);
    assert last <= n;
    StretchOfName(name, digest, j);
  }

  lemma NoSlashInBlobs(name: string, digest: string)
    ensures var path, n := Path(name, BLOBS, digest), |V2| + |name|;
            forall m :: n < m < n + |BLOBS| - 1 ==> path[m] != '/'
  {
    var path, n := Path(name, BLOBS, digest), |V2| + |name|;
    assert forall m :: n < m < n + |BLOBS| - 1 ==> path[m] == BLOBS[m - n];
  }

  /** A separator that ends no later than the name's end lies in the name and the slash after it. */
  lemma StretchOfName(name: string, digest: string, j: nat)
    requires |V2| < j && j + |MANIFESTS| <= |V2| + |name| + 1
    ensures OccursAt(Path(name, BLOBS, digest), MANIFESTS, j) <==> OccursAt(name + "/", MANIFESTS, j - |V2|)
    ensures OccursAt(name + "/", MANIFESTS, j - |V2|) ==> Contains(name + "/", MANIFESTS)
  {
    var path, k := Path(name, BLOBS, digest), j - |V2|;
    PathParts(name, BLOBS, digest);
    assert path[|V2| + |name|] == BLOBS[0];
    assert forall m :: 0 <= m < |name| + 1 ==> path[|V2| + m] == (name + "/")[m];
    assert path[j..j + |MANIFESTS|] == (name + "/")[k..k + |MANIFESTS|];
  }

  lemma NamePrefix(name: string, k: nat)
    requires IsName(name) && 0 < k < |name| && Separator(name[k])
    ensures IsName(name[..k])
  {
    assert forall m :: 0 <= m < k ==> name[..k][m] == name[m];
  }

  lemma NameBeforeManifests(name: string, digest: string) returns (j: nat)
    requires IsName(name) && Contains(name + "/", MANIFESTS)
    ensures MatchAt(Path(name, BLOBS, digest), MANIFESTS, false, 0, j)
  {
    var k: nat :| k <= |name + "/"| && OccursAt(name + "/", MANIFESTS, k);
    OccursChar(name + "/", MANIFESTS, k, 0);
    assert 0 < k < |name| && name[k] == '/';
    NamePrefix(name, k);
    j := |V2| + k;
    StretchOfName(name, digest, j);
    PathParts(name, BLOBS, digest);
    assert Path(name, BLOBS, digest)[|V2|..j] == name[..k];
  }

  /**
   A blob path is recognised as that blob exactly when no component of the name after the first is
   "manifests"; otherwise the manifest expression, tried earlier, takes it.
   */
  lemma BlobDigestPath(registry: string, name: string, digest: string)
    requires IsName(name) && NoSlashOrNewline(digest)
    ensures ParsePathComponents(registry, Path(name, BLOBS, digest)) == Ok(Reference(Blob, "", digest, registry)) <==>
            !Contains(name + "/", MANIFESTS)
  {
    NoTagMatch(name, BLOBS, digest);
    CanonicalMatch(name, BLOBS, digest, false);
    var path := Path(name, BLOBS, digest);
    if Contains(name + "/", MANIFESTS) {
      var j := NameBeforeManifests(name, digest);
      assert Submatch(path, MANIFESTS, false).Some?;
    } else if Leftmost(path, MANIFESTS, false, 0).Some? {
      var (i, j) := Leftmost(path, MANIFESTS, false, 0).value;
      assert j > |V2|;
      ManifestsInsideName(name, digest, j);
    }
  }

  /** Concretely: no blob path of this name is recognised as its blob. */
  lemma BlobTakenForManifest(registry: string, digest: string)
    requires NoSlashOrNewline(digest)
    ensures IsName("a/manifests")
    ensures ParsePathComponents(registry, Path("a/manifests", BLOBS, digest)) !=
            Ok(Reference(Blob, "", digest, registry))
  {
    ExampleName();
    BlobTaken("a/manifests", registry, digest);
  }

  lemma ExampleName()
    ensures IsName("a/manifests")
  {
  }

  lemma BlobTaken(name: string, registry: string, digest: string)
    requires IsName(name) && |name| == 11 && name[1..] == "/manifests" && NoSlashOrNewline(digest)
    ensures ParsePathComponents(registry, Path(name, BLOBS, digest)) != Ok(Reference(Blob, "", digest, registry))
  {
    ManifestsInName(name);
    BlobDigestPath(registry, name, digest);
  }

  lemma ManifestsInName(name: string)
    requires |name| == 11 && name[1..] == "/manifests"
    ensures Contains(name + "/", MANIFESTS)
  {
    assert (name + "/")[1..12] == name[1..] + "/";
    assert OccursAt(name + "/", MANIFESTS, 1);
  }

  /* ---------- The version check ---------- */

  /** path.Clean gives "/v2". */
  predicate IsVersionCheck(path: string)
  {
    path != "" && path[0] == '/' && Reduce([], Split(path)) == ["v2"]
  }

  /** What path.Clean leaves of a rooted path, by components. */
  function Cleaned(path: string): seq<string>
  {
    Reduce([], Split(path))
  }

  /**
   The laws of cleaning: empty and dot components go, a double dot takes the one before it, any other stays.
   With the empty path they determine it for every path, and "/v2" and "/v2/" are version checks.
   */
  lemma CleaningLaws(path: string, part: string)
    requires '/' !in part
    ensures Cleaned("") == []
    ensures Cleaned(path + ['/'] + part) ==
            if part == "" || part == "." then Cleaned(path)
            else if part == ".." then (if Cleaned(path) == [] then [] else Cleaned(path)[..|Cleaned(path)| - 1])
            else Cleaned(path) + [part]
  {
    SplitPart("");
    assert [""][1..] == [];
    SplitJoin(path, part);
    SplitPart(part);
    ReduceConcat([], Split(path), [part]);
    assert [part][1..] == [];
  }

  lemma VersionChecks()
    ensures IsVersionCheck("/v2") && IsVersionCheck("/v2/")
  {
    CleaningLaws("", "v2");
    assert "" + ['/'] + "v2" == "/v2";
    CleaningLaws("/v2", "");
    assert "/v2" + ['/'] + "" == "/v2/";
  }

  /** What follows a slash in a name is a name. */
  lemma NameRest(name: string, part: string, rest: string)
    requires IsName(name) && name == part + ['/'] + rest
    ensures part != "" && LowerAlnum(part[0]) && IsName(rest)
  {
    var k := |part|;
    assert name[k] == '/' && Separator(name[k]);
    assert k > 0 && part[0] == name[0];
    assert k + 1 < |name|;
    assert forall i :: 0 <= i < |rest| ==> rest[i] == name[k + 1 + i];
    assert LowerAlnum(rest[|rest| - 1]);
    assert !Separator(name[k + 1]);
  }

  lemma StartsOrdinary(part: string)
    requires part != "" && LowerAlnum(part[0])
    ensures Ordinary(part)
  {
  }

  ghost predicate AllOrdinary(parts: seq<string>)
  {
    forall i :: 0 <= i < |parts| ==> Ordinary(parts[i])
  }

  lemma OrdinaryCons(part: string, parts: seq<string>)
    requires Ordinary(part) && AllOrdinary(parts)
    ensures AllOrdinary([part] + parts)
  {
  }

  lemma {:induction false} NamePartsAreOrdinary(name: string)
    requires IsName(name)
    ensures AllOrdinary(Split(name))
    decreases |name|
  {
    if Find(name, {'/'}) == |name| {
      StartsOrdinary(name);
      SplitPart(name);
    } else {
      var part, rest := FirstPart(name);
      NameRest(name, part, rest);
      StartsOrdinary(part);
      SplitFirst(name, part, rest);
      NamePartsAreOrdinary(rest);
      OrdinaryCons(part, Split(rest));
    }
  }

  lemma SplitPart(part: string)
    requires '/' !in part
    ensures Split(part) == [part]
  {
  }

  /** The components of a path of this form. */
  lemma SplitParts(v: string, name: string, word: string, reference: string)
    requires '/' !in v && '/' !in word && '/' !in reference
    ensures Split("" + "/" + (v + "/" + (name + "/" + (word + "/" + reference)))) ==
            [""] + ([v] + (Split(name) + ([word] + [reference])))
  {
    SplitJoin("", v + "/" + (name + "/" + (word + "/" + reference)));
    SplitJoin(v, name + "/" + (word + "/" + reference));
    SplitJoin(name, word + "/" + reference);
    SplitJoin(word, reference);
    SplitPart("");
    SplitPart(v);
    SplitPart(word);
    SplitPart(reference);
  }

  /** Only the last component can take another with it. */
  lemma ReduceParts(v: string, names: seq<string>, word: string, reference: string)
    requires Ordinary(v) && Ordinary(word) && names != [] && AllOrdinary(names)
    ensures |Reduce([], [""] + ([v] + (names + ([word] + [reference]))))| >= 2
  {
    var parts := [v] + names + [word];
    var all := [v] + (names + ([word] + [reference]));
    assert all == parts + [reference];
    assert ([""] + all)[1..] == all;
    ReduceOrdinary([], parts, [reference]);
    assert [] + parts == parts;
    ReduceLast(parts, reference);
  }

  lemma ReduceLast(stack: seq<string>, part: string)
    ensures |Reduce(stack, [part])| >= |stack| - 1
  {
    assert [part][1..] == [];
  }

  lemma PathForm(name: string, mid: string, word: string, reference: string)
    requires mid == "/" + word + "/"
    ensures Path(name, mid, reference) == "" + "/" + ("v2" + "/" + (name + "/" + (word + "/" + reference)))
  {
    var x := V2 + name + mid + reference;
    assert V2 == "/" + "v2" + "/";
    assert x == "/" + "v2" + "/" + name + "/" + word + "/" + reference;
  }

  /** No canonical path, whatever its reference, is taken for the version check. */
  lemma NotVersionCheck(name: string, mid: string, reference: string)
    requires IsName(name) && mid in {MANIFESTS, BLOBS} && '/' !in reference
    ensures !IsVersionCheck(Path(name, mid, reference))
  {
    var word := if mid == MANIFESTS then "manifests" else "blobs";
    PathForm(name, mid, word, reference);
    SplitParts("v2", name, word, reference);
    NamePartsAreOrdinary(name);
    ReduceParts("v2", Split(name), word, reference);
  }

  lemma {:induction false} ReduceSnoc(stack: seq<string>, parts: seq<string>, last: string)
    requires Ordinary(last)
    ensures var r := Reduce(stack, parts + [last]); r != [] && r[|r| - 1] == last
    decreases |parts|
  {
    if parts == [] {
      assert ([] + [last])[1..] == [];
    } else {
      assert (parts + [last])[1..] == parts[1..] + [last];
      ReduceSnoc(Push(stack, parts[0]), parts[1..], last);
    }
  }

  /** A path whose last component has a colon is not taken for the version check either. */
  lemma ColonIsNoVersionCheck(start: string, last: string)
    requires '/' !in last && ':' in last
    ensures !IsVersionCheck(start + ['/'] + last)
  {
    SplitJoin(start, last);
    SplitPart(last);
    ReduceSnoc([], Split(start), last);
    assert ':' !in "v2";
  }

  lemma ColonAtEndIsNoVersionCheck(before: string, end: string)
    requires before != "" && before[0] == '/' && '/' !in end && ':' in end
    ensures !IsVersionCheck(before + end)
  {
    var k := AfterLast(before, '/');
    assert k > 0;
    var start, last := before[..k - 1], before[k..];
    assert before == start + ['/'] + last;
    assert before + end == start + ['/'] + (last + end);
    ColonIsNoVersionCheck(start, last + end);
  }

  /* ---------- Advertised keys and looked-up keys ---------- */

  lemma NameIsPlainText(name: string)
    requires IsName(name)
    ensures Image.Plain(name) && ':' !in name && '@' !in name
  {
  }

  lemma MarkCharacters(s: string, k: nat)
    ensures OccursAt(s, Image.SCHEME_MARK, k) ==> k + 2 < |s| && s[k] == ':' && s[k + 1] == '/' && s[k + 2] == '/'
  {
    if OccursAt(s, Image.SCHEME_MARK, k) {
      assert s[k] == s[k..k + 3][0] && s[k + 1] == s[k..k + 3][1] && s[k + 2] == s[k..k + 3][2];
    }
  }

  lemma NoSchemeMark(registry: string, name: string, tag: string)
    requires '/' !in registry && IsName(name) && IsTag(tag)
    ensures !Contains(registry + "/" + name + ":" + tag, Image.SCHEME_MARK)
  {
    var s := registry + "/" + name + ":" + tag;
    var r, n := |registry|, |registry| + 1 + |name|;
    assert s[r] == '/' && s[n] == ':' && s[r + 1] == name[0];
    assert forall m :: 0 <= m < r ==> s[m] == registry[m] && s[m] != '/';
    assert forall m :: r < m < n ==> s[m] == name[m - r - 1] && s[m] != ':';
    assert forall m :: n < m < |s| ==> s[m] == tag[m - n - 1] && s[m] != ':' && s[m] != '/';
    forall k: nat
      ensures !OccursAt(s, Image.SCHEME_MARK, k)
    {
      MarkCharacters(s, k);
    }
  }

  lemma ParseReference(registry: string, repository: string, tag: string, digest: string)
    requires Image.ValidRegistry(registry) && digest != ""
    requires repository != "" && Image.Plain(repository) && ':' !in repository && '@' !in repository
    requires tag != "" && Image.Plain(tag) && '@' !in tag
    requires !Contains(registry + "/" + repository + ":" + tag, Image.SCHEME_MARK)
    ensures var s := registry + "/" + repository + ":" + tag;
            Image.Plain(s) && Image.Parse(s, digest) == Ok(Image.Image(s, registry, repository, tag, digest))
  {
    var s, tail := registry + "/" + repository + ":" + tag, ":" + tag;
    assert s == registry + "/" + repository + tail;
    Image.PlainConcat(":", tag);
    assert Image.Object(tail) == tag;
    assert Find(tag, {'@'}) == |tag|;
    Image.ParseOf(s, registry, repository, tail, digest);
  }

  lemma ParseTagged(registry: string, name: string, tag: string, digest: string)
    requires Image.ValidRegistry(registry) && IsName(name) && IsTag(tag) && digest != ""
    ensures var s := registry + "/" + name + ":" + tag;
            Image.Plain(s) && Image.Parse(s, digest) == Ok(Image.Image(s, registry, name, tag, digest))
  {
    NameIsPlainText(name);
    TagIsPlainText(tag);
    NoSchemeMark(registry, name, tag);
    ParseReference(registry, name, tag, digest);
  }

  /**
   Advertise and lookup agree: for a registry host, repository name and tag, the image parsed from
   <registry>/<name>:<tag> is advertised under the key that a request for that tag is looked up under.
   */
  lemma KeysAgree(registry: string, name: string, tag: string, digest: string)
    requires Image.ValidRegistry(registry) && IsName(name) && IsTag(tag) && digest != ""
    ensures var s := registry + "/" + name + ":" + tag;
            var ref := ParsePathComponents(registry, Path(name, MANIFESTS, tag));
            Image.Plain(s) && Image.Parse(s, digest).Ok? && ref.Ok? &&
            Image.TagName(Image.Parse(s, digest).value) == Some(Key(ref.value))
  {
    TagPath(registry, name, tag);
    ParseTagged(registry, name, tag, digest);
  }

  /** Two texts with the same first colon, taken apart. */
  lemma SameParts(a: string, b: string, c: string, d: string)
    requires ':' !in a && ':' !in c && a + ":" + b == c + ":" + d
    ensures a == c && b == d
  {
    var s, t := a + ":" + b, c + ":" + d;
    assert s[|a|] == ':' && t[|c|] == ':';
    assert forall i :: 0 <= i < |a| ==> s[i] == a[i] && a[i] in a;
    assert forall i :: 0 <= i < |c| ==> t[i] == c[i] && c[i] in c;
    assert |a| == |c|;
    assert s[..|a|] == a && t[..|c|] == c && s[|a| + 1..] == b && t[|c| + 1..] == d;
  }

  /** A tag key obtained from any path is the registry, a name and a tag. */
  lemma TagKeyParts(registry: string, path: string, repository: string, tag: string)
    requires ':' !in repository
    requires Submatch(path, MANIFESTS, true).Some?
    requires var (name, found) := Submatch(path, MANIFESTS, true).value;
             registry + "/" + name + ":" + found == registry + "/" + repository + ":" + tag
    ensures IsName(repository) && IsTag(tag)
  {
    var (i, j) := Leftmost(path, MANIFESTS, true, 0).value;
    var rest := path[j + |MANIFESTS|..];
    var (name, found) := Submatch(path, MANIFESTS, true).value;
    TagIsPlainText(rest);
    assert Find(rest, {'\n'}) == |rest| && found == rest;
    NameIsPlainText(name);
    var start := registry + "/";
    Regroup(registry, "/", name, ":", found);
    Regroup(registry, "/", repository, ":", tag);
    assert (start + (name + ":" + found))[|start|..] == name + ":" + found;
    assert (start + (repository + ":" + tag))[|start|..] == repository + ":" + tag;
    SameParts(name, found, repository, tag);
  }

  lemma NoColonInPath(repository: string, tag: string)
    requires ':' !in repository && ':' !in tag
    ensures ':' !in Path(repository, MANIFESTS, tag)
  {
  }

  lemma NoColonInDigest(path: string, mid: string)
    requires ':' !in path
    ensures Submatch(path, mid, false).Some? ==> ':' !in Submatch(path, mid, false).value.1
  {
  }

  /**
   The agreement, exactly: for a repository and a tag without a colon, the path of the tag is looked up
   under the key <registry>/<repository>:<tag> if and only if they are in the path grammar.
   */
  lemma TagPathKeyIff(registry: string, repository: string, tag: string)
    requires registry != "" && ':' !in repository && ':' !in tag
    ensures var ref := ParsePathComponents(registry, Path(repository, MANIFESTS, tag));
            ref.Ok? && Key(ref.value) == registry + "/" + repository + ":" + tag <==> IsName(repository) && IsTag(tag)
  {
    var path, key := Path(repository, MANIFESTS, tag), registry + "/" + repository + ":" + tag;
    var ref := ParsePathComponents(registry, path);
    if IsName(repository) && IsTag(tag) {
      TagPath(registry, repository, tag);
    } else if ref.Ok? && Key(ref.value) == key {
      assert key[|registry| + 1 + |repository|] == ':';
      NoColonInPath(repository, tag);
      NoColonInDigest(path, MANIFESTS);
      NoColonInDigest(path, BLOBS);
      assert ref.value.digest == "";
      TagOrDigest(registry, path);
      TagKeyParts(registry, path, repository, tag);
    }
  }

  /** A key without digest comes from the tag expression. */
  lemma TagOrDigest(registry: string, path: string)
    requires ParsePathComponents(registry, path).Ok?
    ensures var ref := ParsePathComponents(registry, path).value;
            if Submatch(path, MANIFESTS, true).Some?
            then
              var (name, tag) := Submatch(path, MANIFESTS, true).value;
              ref.digest == "" && ref.name == registry + "/" + name + ":" + tag
            else ref.name == ""
  {
  }

  /**
   Advertised and looked up, exactly: an image parsed from <registry>/<repository>:<tag> is advertised under
   that key, and the path of its tag is looked up under it if and only if they are in the path grammar,
   which is narrower than what images are parsed with.
   */
  lemma KeysAgreeIff(registry: string, repository: string, tag: string, digest: string)
    requires Image.ValidRegistry(registry) && digest != ""
    requires repository != "" && Image.Plain(repository) && ':' !in repository && '@' !in repository
    requires tag != "" && Image.Plain(tag) && ':' !in tag && '@' !in tag
    requires !Contains(registry + "/" + repository + ":" + tag, Image.SCHEME_MARK)
    ensures var s := registry + "/" + repository + ":" + tag;
            var ref := ParsePathComponents(registry, Path(repository, MANIFESTS, tag));
            && Image.Plain(s) && Image.Parse(s, digest) == Ok(Image.Image(s, registry, repository, tag, digest))
            && (ref.Ok? && Image.TagName(Image.Parse(s, digest).value) == Some(Key(ref.value)) <==>
                IsName(repository) && IsTag(tag))
  {
    ParseReference(registry, repository, tag, digest);
    TagPathKeyIff(registry, repository, tag);
  }

  /** Concretely: an image with this repository is parsed and advertised, and no path of it yields its key. */
  lemma UnreachableRepository(registry: string, tag: string)
    requires registry != "" && ':' !in tag
    ensures Image.Plain("a__b") && !IsName("a__b")
    ensures var ref := ParsePathComponents(registry, Path("a__b", MANIFESTS, tag));
            !(ref.Ok? && Key(ref.value) == registry + "/" + "a__b" + ":" + tag)
  {
    assert "a__b"[2] == '_' && "a__b"[1] == '_';
    TagPathKeyIff(registry, "a__b", tag);
  }

  /** The latest-tag test recognises exactly the tag "latest" of a registry without a port. */
  lemma LatestRecognised(registry: string, name: string, tag: string)
    requires IsName(name) && ':' !in tag && '/' !in tag
    ensures HasLatestTag(registry + "/" + name + ":" + tag) <==> ':' !in registry && tag == "latest"
  {
    NameIsPlainText(name);
    LatestOfTagName(registry, name, tag);
  }

  lemma LatestOfTagName(registry: string, repository: string, tag: string)
    requires ':' !in repository
    ensures HasLatestTag(registry + "/" + repository + ":" + tag) <==> ':' !in registry && tag == "latest"
  {
    var key := registry + "/" + repository + ":" + tag;
    assert key[|registry| + 1 + |repository|] == ':';
    if ':' !in registry {
      FindAfter(registry + "/" + repository, ":" + tag, {':'});
      assert key == registry + "/" + repository + (":" + tag);
      assert key[|registry| + 1 + |repository| + 1..] == tag;
    } else {
      var c := Find(registry, {':'});
      assert registry[c] == ':';
      assert forall m :: 0 <= m < |registry| ==> key[m] == registry[m];
      assert Find(key, {':'}) == c;
      assert key[c + 1..][|registry| - c - 1] == '/';
      assert '/' !in "latest";
    }
  }

  /** Concretely: the port hides the latest tag. */
  lemma PortHidesLatest()
    ensures HasLatestTag("h" + "/" + "a" + ":" + "latest") && !HasLatestTag("h:1" + "/" + "a" + ":" + "latest")
  {
    LatestRecognised("h", "a", "latest");
    LatestRecognised("h:1", "a", "latest");
    assert "h:1"[1] == ':';
  }
}
