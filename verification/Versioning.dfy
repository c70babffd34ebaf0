/** Version paths: normalising the base path, mounting each version, and reading the version back. */
module Versioning {
  import opened Wrappers
  import opened Text

  datatype ApiVersion = V1 | V2 | V3 | V4 | V5

  function Digit(v: ApiVersion): char {
    match v
    case V1 => '1'
    case V2 => '2'
    case V3 => '3'
    case V4 => '4'
    case V5 => '5'
  }

  function PathSegment(v: ApiVersion): string {
    ['v', Digit(v)]
  }

  /**
    Lower-casing. Outside ASCII the source's mapping differs, but no other character maps to `v`
    or to a digit, and those are all that parsing looks at.
   */
  function Lower(s: string): string {
    if s == [] then [] else [LowerAscii(s[0])] + Lower(s[1..])
  }

  function TrimStart(s: string, c: char): string {
    if s != [] && s[0] == c then TrimStart(s[1..], c) else s
  }

  function Parse(s: string): Option<ApiVersion> {
    var normalized := TrimStart(Lower(s), 'v');
    if normalized == "1" then Some(V1)
    else if normalized == "2" then Some(V2)
    else if normalized == "3" then Some(V3)
    else if normalized == "4" then Some(V4)
    else if normalized == "5" then Some(V5)
    else None
  }

  predicate IsV(c: char) {
    c == 'v' || c == 'V'
  }

  /** The language the parser accepts: any number of v's of either case, then the version's digit. */
  ghost predicate Spells(s: string, v: ApiVersion) {
    s != [] && s[|s| - 1] == Digit(v) && forall i :: 0 <= i < |s| - 1 ==> IsV(s[i])
  }

  lemma {:induction false} ParseExactly(s: string, v: ApiVersion)
    ensures Parse(s) == Some(v) <==> Spells(s, v)
  {
    hide Parse, Spells;
    if s == [] {
      ParsePlain(s, v);
    } else if IsV(s[0]) {
      ParseExactly(s[1..], v);
      ParseSkipsV(s);
      SpellsSkipsV(s, v);
    } else {
      ParsePlain(s, v);
    }
  }

  lemma ParseSkipsV(s: string)
    requires s != [] && IsV(s[0])
    ensures Parse(s) == Parse(s[1..])
  {
    assert Lower(s) == ['v'] + Lower(s[1..]);
    assert Lower(s)[1..] == Lower(s[1..]);
  }

  lemma SpellsSkipsV(s: string, v: ApiVersion)
    requires s != [] && IsV(s[0])
    ensures Spells(s, v) <==> Spells(s[1..], v)
  {
    var t := s[1..];
    assert forall i :: 0 <= i < |t| ==> t[i] == s[i + 1];
    if Spells(t, v) {
      forall i | 0 <= i < |s| - 1 ensures IsV(s[i]) {
        if i > 0 { assert s[i] == t[i - 1]; }
      }
    }
  }

  lemma ParsePlain(s: string, v: ApiVersion)
    requires s == [] || !IsV(s[0])
    ensures Parse(s) == Some(v) <==> Spells(s, v)
  {
    LowerLength(s);
    if s != [] {
      assert Lower(s)[0] == LowerAscii(s[0]) != 'v';
      assert TrimStart(Lower(s), 'v') == Lower(s);
      if |s| == 1 {
        assert Lower(s) == [LowerAscii(s[0])];
      }
    }
  }

  lemma LowerLength(s: string)
    ensures |Lower(s)| == |s|
  {
  }

  // Base paths.

  function TrimEnd(s: string, c: char): (r: string)
    ensures r <= s && (r == [] || r[|r| - 1] != c)
    ensures forall i :: |r| <= i < |s| ==> s[i] == c
  {
    if s != [] && s[|s| - 1] == c then TrimEnd(s[..|s| - 1], c) else s
  }

  function NormalizeBase(path: string): string {
    if !StartsWith(path, "/") then "/" + TrimEnd(path, '/') else TrimEnd(path, '/')
  }

  ghost predicate HasNonSlash(path: string) {
    exists i :: 0 <= i < |path| && path[i] != '/'
  }

  ghost predicate WellFormedBase(path: string) {
    path != [] && path[0] == '/' && path[|path| - 1] != '/'
  }

  /**
    Starting and not ending with a slash, and normalising twice like once, both hold exactly for paths
    with some character besides slashes: the empty path becomes "/" and "/" becomes the empty path.
   */
  lemma NormalizeExactly(path: string)
    ensures WellFormedBase(NormalizeBase(path)) <==> HasNonSlash(path)
    ensures NormalizeBase(NormalizeBase(path)) == NormalizeBase(path) <==> HasNonSlash(path)
  {
    hide NormalizeBase;
    if HasNonSlash(path) {
      NormalizeSomething(path);
    } else {
      NormalizeNothing(path);
    }
  }

  /** The path's own characters, less its trailing slashes, behind a leading slash it had or was given. */
  lemma NormalizeKeepsThePath(path: string) returns (body: string, slashes: string)
    ensures path == body + slashes && (body == [] || body[|body| - 1] != '/')
    ensures forall i :: 0 <= i < |slashes| ==> slashes[i] == '/'
    ensures NormalizeBase(path) == if path != [] && path[0] == '/' then body else ['/'] + body
  {
    hide TrimEnd;
    body := TrimEnd(path, '/');
    slashes := path[|body|..];
    assert "/" <= path <==> path != [] && path[0] == '/';
  }

  lemma NormalizeSomething(path: string)
    requires HasNonSlash(path)
    ensures WellFormedBase(NormalizeBase(path)) && NormalizeBase(NormalizeBase(path)) == NormalizeBase(path)
  {
    hide TrimEnd;
    var t, n := TrimEnd(path, '/'), NormalizeBase(path);
    var i :| 0 <= i < |path| && path[i] != '/';
    assert i < |t| && path[0] == t[0];
    TrimEndFixed(n, '/');
    assert "/" <= n;
  }

  lemma NormalizeNothing(path: string)
    requires !HasNonSlash(path)
    ensures NormalizeBase(path) == (if path == [] then "/" else "")
    ensures NormalizeBase("/") == "" && NormalizeBase("") == "/"
    ensures !WellFormedBase(NormalizeBase(path)) && NormalizeBase(NormalizeBase(path)) != NormalizeBase(path)
  {
    hide TrimEnd;
    assert TrimEnd(path, '/') == [];
    assert TrimEnd("/", '/') == [] && TrimEnd("", '/') == [];
    assert path == [] || "/" <= path;
  }

  lemma TrimEndFixed(s: string, c: char)
    requires s == [] || s[|s| - 1] != c
    ensures TrimEnd(s, c) == s
  {
  }

  // Reading the version back.

  /** The first segment that begins with a v of either case. */
  function FirstVersionLike(segments: seq<string>): Option<string> {
    if segments == [] then None
    else if segments[0] != [] && IsV(segments[0][0]) then Some(segments[0])
    else FirstVersionLike(segments[1..])
  }

  function ExtractVersion(path: string): Option<ApiVersion> {
    match FirstVersionLike(Split(path, '/'))
    case None => None
    case Some(segment) => Parse(segment)
  }

  function BaseString(base: Option<string>): string {
    if base.Some? then base.value else ""
  }

  function MountPath(base: Option<string>, v: ApiVersion): string {
    BaseString(base) + ("/" + PathSegment(v))
  }

  /** A mount is the base as it stands, nothing if there is none, then "/v" and the version's digit. */
  lemma MountExactly(base: Option<string>, v: ApiVersion)
    ensures MountPath(base, v) == match base
                                  case None => "/v" + [Digit(v)]
                                  case Some(b) => b + "/v" + [Digit(v)]
  {
    assert "/" + PathSegment(v) == "/v" + [Digit(v)];
  }

  /** Segment `i` is the earliest that begins with a v of either case. */
  ghost predicate EarliestV(segments: seq<string>, i: nat) {
    && i < |segments| && segments[i] != [] && (segments[i][0] == 'v' || segments[i][0] == 'V')
    && forall j :: 0 <= j < i ==> segments[j] == [] || (segments[j][0] != 'v' && segments[j][0] != 'V')
  }

  ghost predicate NoV(segments: seq<string>) {
    forall i: nat :: !EarliestV(segments, i)
  }

  lemma {:induction false} FirstVersionLikeExactly(segments: seq<string>)
    ensures FirstVersionLike(segments).None? ==> NoV(segments)
    ensures FirstVersionLike(segments).Some? ==>
              exists i: nat :: EarliestV(segments, i) && FirstVersionLike(segments) == Some(segments[i])
    ensures forall i: nat :: EarliestV(segments, i) ==> FirstVersionLike(segments) == Some(segments[i])
  {
    if segments != [] {
      var rest := segments[1..];
      FirstVersionLikeExactly(rest);
      if segments[0] != [] && (segments[0][0] == 'v' || segments[0][0] == 'V') {
        assert EarliestV(segments, 0);
      } else {
        forall i: nat ensures EarliestV(segments, i + 1) <==> EarliestV(rest, i) {
          if EarliestV(segments, i + 1) {
            forall j | 0 <= j < i ensures rest[j] == [] || (rest[j][0] != 'v' && rest[j][0] != 'V') {
              assert rest[j] == segments[j + 1];
            }
          }
          if EarliestV(rest, i) {
            forall j | 0 <= j < i + 1 ensures segments[j] == [] || (segments[j][0] != 'v' && segments[j][0] != 'V') {
              if j > 0 { assert segments[j] == rest[j - 1]; }
            }
          }
        }
        assert !EarliestV(segments, 0);
        forall i: nat | EarliestV(segments, i) ensures FirstVersionLike(segments) == Some(segments[i]) {
          assert EarliestV(rest, i - 1);
        }
        forall i: nat | FirstVersionLike(rest).None? ensures !EarliestV(segments, i) {
          if i > 0 { assert !EarliestV(rest, i - 1); }
        }
        if FirstVersionLike(rest).Some? {
          var i: nat :| EarliestV(rest, i) && FirstVersionLike(rest) == Some(rest[i]);
          assert EarliestV(segments, i + 1) && segments[i + 1] == rest[i];
        }
      }
    }
  }

  /** What may follow a mount point: nothing, or a further path. */
  predicate IsSuffix(suffix: string) {
    suffix == "" || suffix[0] == '/'
  }

  lemma {:induction false} FirstVersionLikeAppend(a: seq<string>, b: seq<string>)
    ensures FirstVersionLike(a + b) ==
            if FirstVersionLike(a).Some? then FirstVersionLike(a) else FirstVersionLike(b)
  {
    if a == [] {
      assert a + b == b;
    } else {
      assert (a + b)[1..] == a[1..] + b;
      FirstVersionLikeAppend(a[1..], b);
    }
  }

  lemma SplitMount(base: Option<string>, v: ApiVersion, suffix: string) returns (rest: seq<string>)
    requires IsSuffix(suffix)
    ensures Split(MountPath(base, v) + suffix, '/') == Split(BaseString(base), '/') + [PathSegment(v)] + rest
    ensures suffix == "" ==> rest == []
  {
    hide Split;
    var b, seg := BaseString(base), PathSegment(v);
    assert MountPath(base, v) + suffix == b + ['/'] + (seg + suffix);
    SplitAppend(b, seg + suffix, '/');
    SplitWhole(seg, '/');
    if suffix == "" {
      rest := [];
      assert seg + suffix == seg;
    } else {
      assert seg + suffix == seg + ['/'] + suffix[1..];
      SplitAppend(seg, suffix[1..], '/');
      rest := Split(suffix[1..], '/');
    }
  }

  /**
    On every mounted path the extractor answers the mounted version when no base segment begins with
    v or V, and otherwise whatever the first such base segment parses to.
   */
  lemma ExtractOnMount(base: Option<string>, v: ApiVersion, suffix: string)
    requires IsSuffix(suffix)
    ensures ExtractVersion(MountPath(base, v) + suffix) ==
            match FirstVersionLike(Split(BaseString(base), '/'))
            case None => Some(v)
            case Some(segment) => Parse(segment)
  {
    var rest := SplitMount(base, v, suffix);
    var front := Split(BaseString(base), '/');
    FirstVersionLikeAppend(front, [PathSegment(v)] + rest);
    assert front + [PathSegment(v)] + rest == front + ([PathSegment(v)] + rest);
    assert FirstVersionLike([PathSegment(v)] + rest) == Some(PathSegment(v));
    assert Spells(PathSegment(v), v);
    ParseExactly(PathSegment(v), v);
  }

  /** The segments of a base path; without one there are none. */
  ghost function BaseSegments(base: Option<string>): seq<string> {
    if base.None? then [] else Split(base.value, '/')
  }

  lemma BaseSegmentsFound(base: Option<string>)
    ensures FirstVersionLike(Split(BaseString(base), '/')) == FirstVersionLike(BaseSegments(base))
  {
    if base.None? {
      assert Split("", '/') == [""];
      assert [""][1..] == [];
    }
  }

  /** The round trip holds exactly when the base's earliest v-segment, if any, spells the same version. */
  lemma RoundTripExactly(base: Option<string>, v: ApiVersion, suffix: string)
    requires IsSuffix(suffix)
    ensures ExtractVersion(MountPath(base, v) + suffix) == Some(v) <==>
            forall i: nat :: EarliestV(BaseSegments(base), i) ==> Spells(BaseSegments(base)[i], v)
  {
    hide Split, EarliestV, FirstVersionLike, ExtractVersion, Spells;
    ExtractOnMount(base, v, suffix);
    BaseSegmentsFound(base);
    var segments := BaseSegments(base);
    FirstVersionLikeExactly(segments);
    var found := FirstVersionLike(segments);
    if found.Some? {
      ParseExactly(found.value, v);
    }
  }

  /** A base such as "/vendor" hides the version from the extractor. */
  lemma VendorBaseHidesTheVersion(v: ApiVersion, suffix: string)
    requires IsSuffix(suffix)
    ensures ExtractVersion(MountPath(Some("/vendor"), v) + suffix) == None
  {
    hide Split;
    ExtractOnMount(Some("/vendor"), v, suffix);
    var base := "/vendor";
    assert base == [] + ['/'] + "vendor";
    SplitAppend([], "vendor", '/');
    SplitWhole("", '/');
    SplitWhole("vendor", '/');
    assert FirstVersionLike(["", "vendor"]) == Some("vendor") by { assert ["", "vendor"][1..] == ["vendor"]; }
    forall w: ApiVersion ensures Parse("vendor") != Some(w) {
      ParseExactly("vendor", w);
      assert "vendor"[1] == 'e';
    }
    assert Split(base, '/') == [""] + ["vendor"] == ["", "vendor"];
  }

  /** Mounts of different versions are never segment-prefixes of one another. */
  lemma MountsAreNotNested(base: Option<string>, v: ApiVersion, w: ApiVersion)
    requires v != w
    ensures !(Split(MountPath(base, v), '/') <= Split(MountPath(base, w), '/'))
  {
    hide Split;
    var r1 := SplitMount(base, v, "");
    var r2 := SplitMount(base, w, "");
    assert MountPath(base, v) + "" == MountPath(base, v) && MountPath(base, w) + "" == MountPath(base, w);
    var n := |Split(BaseString(base), '/')|;
    assert Split(MountPath(base, v), '/')[n] == PathSegment(v);
    assert Split(MountPath(base, w), '/')[n] == PathSegment(w);
  }

  // The builder.

  datatype Mount = Mount(path: string, version: ApiVersion)

  ghost predicate Under(path: string, mount: string) {
    mount <= path && IsSuffix(path[|mount|..])
  }

  class VersionedApiBuilder {
    var versions: seq<ApiVersion>
    var basePath: Option<string>

    constructor ()
      ensures versions == [] && basePath == None
    {
      versions, basePath := [], None;
    }

    method WithBasePath(path: string)
      modifies this`basePath
      ensures basePath == Some(NormalizeBase(path))
      ensures HasNonSlash(path) <==> WellFormedBase(basePath.value)
      ensures exists body: string :: body <= path && (body == [] || body[|body| - 1] != '/')
                && (forall i :: |body| <= i < |path| ==> path[i] == '/')
                && basePath.value == if path != [] && path[0] == '/' then body else ['/'] + body
    {
      basePath := Some(NormalizeBase(path));
      NormalizeExactly(path);
      ghost var body, slashes := NormalizeKeepsThePath(path);
      assert body <= path;
    }

    method AddVersion(v: ApiVersion)
      modifies this`versions
      ensures versions == old(versions) + [v]
    {
      versions := versions + [v];
    }

    /** One mount per registered version, in registration order. */
    method BuildRoutes() returns (router: seq<Mount>)
      ensures |router| == |versions|
      ensures forall i :: 0 <= i < |router| ==> router[i] == Mount(MountPath(basePath, versions[i]), versions[i])
      ensures forall i :: 0 <= i < |router| ==>
                router[i].path == (if basePath.Some? then basePath.value else "") + "/v" + [Digit(versions[i])]
    {
      router := [];
      for i := 0 to |versions|
        invariant |router| == i
        invariant forall k :: 0 <= k < i ==> router[k] == Mount(MountPath(basePath, versions[k]), versions[k])
      {
        router := router + [Mount(MountPath(basePath, versions[i]), versions[i])];
      }
      forall i | 0 <= i < |router|
        ensures router[i].path == (if basePath.Some? then basePath.value else "") + "/v" + [Digit(versions[i])]
      {
        MountExactly(basePath, versions[i]);
        assert "" + "/v" == "/v";
      }
    }
  }

  /**
    Routing and extraction agree: a request path lies under at most one version's mount, and when the
    base has no segment beginning with v or V the extractor names that version.
   */
  lemma RoutingAgreesWithExtraction(base: Option<string>, v: ApiVersion, w: ApiVersion, path: string)
    requires Under(path, MountPath(base, v)) && Under(path, MountPath(base, w))
    ensures v == w
    ensures NoV(BaseSegments(base)) ==> ExtractVersion(path) == Some(v)
  {
    hide Split, EarliestV;
    BaseSegmentsFound(base);
    FirstVersionLikeExactly(BaseSegments(base));
    var m1, m2 := MountPath(base, v), MountPath(base, w);
    assert path == m1 + path[|m1|..] && path == m2 + path[|m2|..];
    var r1 := SplitMount(base, v, path[|m1|..]);
    var r2 := SplitMount(base, w, path[|m2|..]);
    var n := |Split(BaseString(base), '/')|;
    assert Split(path, '/')[n] == PathSegment(v) == PathSegment(w);
    ExtractOnMount(base, v, path[|m1|..]);
  }
}
