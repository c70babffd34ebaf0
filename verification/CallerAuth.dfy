/**
  Caller authorization: from configuration strings to a policy, and from a leaf certificate and a
  bearer flag to a decision. Names follow the DNS and URI forms of section 4.2.1.6 of RFC 5280.
 */
module CallerAuth {
  import opened Wrappers
  import opened Text

  const MAX_SAN_LEN: nat := 1024

  datatype SanKind = Dns | Uri

  datatype CallerSan = CallerSan(kind: SanKind, value: string)

  datatype CallerSanError =
    | Empty
    | TooLong(len: nat)
    | Wildcard(value: string)
    | IllegalCharacter(value: string)

  // Characters as the standard library classifies them.

  predicate IsWhitespace(c: char) {
    var n := c as int;
    || 0x09 <= n <= 0x0D || n == 0x20 || n == 0x85 || n == 0xA0 || n == 0x1680
    || 0x2000 <= n <= 0x200A || n == 0x2028 || n == 0x2029 || n == 0x202F || n == 0x205F || n == 0x3000
  }

  predicate IsControl(c: char) {
    c as int <= 0x1F || 0x7F <= c as int <= 0x9F
  }

  predicate IllegalChar(c: char) {
    IsWhitespace(c) || IsControl(c) || c as int == 0xFEFF
  }

  function Utf8Width(c: char): nat {
    var n := c as int;
    if n < 0x80 then 1 else if n < 0x800 then 2 else if n < 0x1_0000 then 3 else 4
  }

  /** The length in bytes, which is what the limit counts. */
  function ByteLength(s: string): nat {
    if s == [] then 0 else Utf8Width(s[0]) + ByteLength(s[1..])
  }

  function NewSan(kind: SanKind, value: string): Result<CallerSan, CallerSanError> {
    if value == "" then Failure(Empty)
    else if ByteLength(value) > MAX_SAN_LEN then Failure(TooLong(ByteLength(value)))
    else if '*' in value then Failure(Wildcard(value))
    else if exists i :: 0 <= i < |value| && IllegalChar(value[i]) then Failure(IllegalCharacter(value))
    else Success(CallerSan(kind, value))
  }

  function ParseSan(entry: string): Result<CallerSan, CallerSanError> {
    NewSan(if Contains(entry, "://") then Uri else Dns, entry)
  }

  /** A value that can name a caller at all. */
  ghost predicate UsableValue(value: string) {
    && value != "" && ByteLength(value) <= MAX_SAN_LEN
    && forall i :: 0 <= i < |value| ==> value[i] != '*' && !IllegalChar(value[i])
  }

  function CountFrom(s: string, n: nat): nat {
    if s == [] then 0 else (if s[0] as int >= n then 1 else 0) + CountFrom(s[1..], n)
  }

  /** One byte for each character, and one more at each threshold of UTF-8 (section 3 of RFC 3629). */
  lemma {:induction false} ByteLengthExactly(s: string)
    ensures ByteLength(s) == |s| + CountFrom(s, 0x80) + CountFrom(s, 0x800) + CountFrom(s, 0x1_0000)
  {
    if s != [] {
      ByteLengthExactly(s[1..]);
    }
  }

  /**
    The illegal characters as one list of ranges: everything up to the space, DEL up to the no-break space, the
    Unicode spaces and line separators, and the byte-order mark.
   */
  lemma IllegalExactly(c: char)
    ensures IllegalChar(c) <==>
            var n := c as int;
            || n <= 0x20 || 0x7F <= n <= 0xA0 || n == 0x1680 || 0x2000 <= n <= 0x200A
            || n in {0x2028, 0x2029, 0x202F, 0x205F, 0x3000, 0xFEFF}
  {
  }

  // Allowlist and policy.

  datatype ConfigError =
    | EmptyAllowlist
    | AllowlistWithoutCertificateMode
    | InvalidEntry(entry: string, source: CallerSanError)

  /** Built only through `NewAllowlist`, so never empty. */
  datatype CallerAllowlist = CallerAllowlist(names: set<CallerSan>)

  function NewAllowlist(entries: seq<CallerSan>): Result<CallerAllowlist, ConfigError> {
    var names := set i | 0 <= i < |entries| :: entries[i];
    if names == {} then Failure(EmptyAllowlist) else Success(CallerAllowlist(names))
  }

  function ParseEntries(entries: seq<string>): Result<seq<CallerSan>, ConfigError> {
    if entries == [] then Success([])
    else
      match ParseSan(entries[0])
      case Failure(e) => Failure(InvalidEntry(entries[0], e))
      case Success(san) =>
        var rest :- ParseEntries(entries[1..]);
        Success([san] + rest)
  }

  function FromEntries(entries: seq<string>): Result<CallerAllowlist, ConfigError> {
    var parsed :- ParseEntries(entries);
    NewAllowlist(parsed)
  }

  datatype Mode = Bearer | Mtls | MtlsOrBearer

  datatype Policy = Policy(mode: Mode, allowlist: Option<CallerAllowlist>, publicPaths: seq<string>)

  datatype CallerAuthConfig = CallerAuthConfig(mode: Mode, allowlist: seq<string>, publicPaths: seq<string>)

  function ToPolicy(config: CallerAuthConfig): Result<Policy, ConfigError> {
    match config.mode
    case Bearer =>
      if config.allowlist != [] then Failure(AllowlistWithoutCertificateMode)
      else Success(Policy(Bearer, None, config.publicPaths))
    case mode =>
      var allowlist :- FromEntries(config.allowlist);
      Success(Policy(mode, Some(allowlist), config.publicPaths))
  }

  // The decision.

  datatype GeneralName = DnsName(value: string) | UriName(value: string) | OtherName

  /** What decoding a DER leaf yields; the decoder itself is a foreign library. */
  datatype Leaf = Malformed(reason: string) | WithoutSan | WithSan(names: seq<GeneralName>)

  datatype AuthenticatedCaller = Certificate(san: CallerSan) | BearerDeferred

  datatype CallerAuthError =
    | NoClientCertificate
    | NoCredential
    | MalformedCertificate(reason: string)
    | NoUsableSan
    | NotAllowlisted(san: CallerSan)

  /** The caller name one general name stands for, if it can be one. */
  function Usable(name: GeneralName): Option<CallerSan> {
    match name
    case DnsName(value) => (var r := NewSan(Dns, value); if r.Success? then Some(r.value) else None)
    case UriName(value) => (var r := NewSan(Uri, value); if r.Success? then Some(r.value) else None)
    case OtherName => None
  }

  /** What a general name stands for, said without the extraction: DNS names are Dns, URIs are Uri. */
  ghost predicate StandsFor(name: GeneralName, s: CallerSan) {
    UsableValue(s.value) && name == (if s.kind.Dns? then DnsName(s.value) else UriName(s.value))
  }

  lemma UsableExactly(name: GeneralName, s: CallerSan)
    ensures Usable(name) == Some(s) <==> StandsFor(name, s)
  {
  }

  /** `sans` are the names that `names` stand for, in order; `at` tells where each was found. */
  ghost predicate Lists(names: seq<GeneralName>, sans: seq<CallerSan>, at: seq<nat>) {
    && |at| == |sans|
    && (forall k :: 0 <= k < |at| ==> at[k] < |names| && StandsFor(names[at[k]], sans[k]))
    && (forall k, l :: 0 <= k < l < |at| ==> at[k] < at[l])
    && (forall i, s :: 0 <= i < |names| && StandsFor(names[i], s) ==> i in at)
  }

  /** One more general name: listed if it stands for something, left out otherwise. */
  lemma ListsOneMore(names: seq<GeneralName>, sans: seq<CallerSan>, at: seq<nat>, name: GeneralName)
    requires Lists(names, sans, at)
    ensures Usable(name).None? ==> Lists(names + [name], sans, at)
    ensures Usable(name).Some? ==> Lists(names + [name], sans + [Usable(name).value], at + [|names|])
  {
    hide Usable, StandsFor;
    forall s ensures Usable(name) == Some(s) <==> StandsFor(name, s) {
      UsableExactly(name, s);
    }
    var more := names + [name];
    forall i, s | 0 <= i < |more| && StandsFor(more[i], s) ensures i in at + [|names|] && (Usable(name).None? ==> i in at) {
      if i < |names| {
        assert StandsFor(names[i], s);
      }
    }
  }

  function UsableNames(names: seq<GeneralName>): seq<CallerSan> {
    if names == [] then []
    else (if Usable(names[0]).Some? then [Usable(names[0]).value] else []) + UsableNames(names[1..])
  }

  function SubjectAltNames(leaf: Leaf): Result<seq<CallerSan>, CallerAuthError> {
    match leaf
    case Malformed(reason) => Failure(MalformedCertificate(reason))
    case WithoutSan => Success([])
    case WithSan(names) => Success(UsableNames(names))
  }

  lemma {:induction false} UsableNamesAppend(a: seq<GeneralName>, b: seq<GeneralName>)
    ensures UsableNames(a + b) == UsableNames(a) + UsableNames(b)
  {
    hide Usable;
    if a == [] {
      assert a + b == b;
    } else {
      assert (a + b)[0] == a[0] && (a + b)[1..] == a[1..] + b;
      UsableNamesAppend(a[1..], b);
      var head := if Usable(a[0]).Some? then [Usable(a[0]).value] else [];
      assert UsableNames(a) == head + UsableNames(a[1..]);
      assert UsableNames(a + b) == head + UsableNames(a[1..] + b);
    }
  }

  /** The source's loop: push every name that can be a caller, skip the rest. */
  method ExtractNames(leaf: Leaf) returns (r: Result<seq<CallerSan>, CallerAuthError>, ghost at: seq<nat>)
    ensures r == SubjectAltNames(leaf)
    ensures leaf.Malformed? ==> r == Failure(MalformedCertificate(leaf.reason))
    ensures leaf.WithoutSan? ==> r == Success([])
    ensures leaf.WithSan? ==> r.Success? && Lists(leaf.names, r.value, at)
  {
    hide Lists;
    at := [];
    match leaf
    case Malformed(reason) => r := Failure(MalformedCertificate(reason));
    case WithoutSan => r := Success([]);
    case WithSan(names) =>
      var found := [];
      ListsNothing();
      for i := 0 to |names|
        invariant found == UsableNames(names[..i])
        invariant Lists(names[..i], found, at)
      {
        ListsOneMore(names[..i], found, at, names[i]);
        var parsed;
        match names[i] {
          case DnsName(value) => parsed := NewSan(Dns, value);
          case UriName(value) => parsed := NewSan(Uri, value);
          case OtherName => parsed := Failure(Empty);
        }
        if parsed.Success? {
          found := found + [parsed.value];
          at := at + [i];
        }
        assert names[..i + 1] == names[..i] + [names[i]];
        UsableNamesAppend(names[..i], [names[i]]);
      }
      assert names[..|names|] == names;
      r := Success(found);
  }

  lemma ListsNothing()
    ensures Lists([], [], [])
  {
  }

  function FirstAllowed(sans: seq<CallerSan>, allowlist: CallerAllowlist): Option<CallerSan> {
    if sans == [] then None
    else if sans[0] in allowlist.names then Some(sans[0])
    else FirstAllowed(sans[1..], allowlist)
  }

  function AuthorizeCertificate(policy: Policy, leaf: Leaf): Result<CallerSan, CallerAuthError> {
    var sans :- SubjectAltNames(leaf);
    if sans == [] then Failure(NoUsableSan)
    else
      match policy.allowlist
      case None => Failure(NotAllowlisted(sans[0]))
      case Some(allowlist) =>
        match FirstAllowed(sans, allowlist)
        case Some(san) => Success(san)
        case None => Failure(NotAllowlisted(sans[0]))
  }

  function Authorize(policy: Policy, leaf: Option<Leaf>, bearerPresent: bool)
    : Result<AuthenticatedCaller, CallerAuthError>
  {
    match policy.mode
    case Bearer => Success(BearerDeferred)
    case Mtls =>
      if leaf.None? then Failure(NoClientCertificate)
      else
        var san :- AuthorizeCertificate(policy, leaf.value);
        Success(Certificate(san))
    case MtlsOrBearer =>
      var outcome := if leaf.Some? then AuthorizeCertificate(policy, leaf.value) else Failure(NoClientCertificate);
      match outcome
      case Success(san) => Success(Certificate(san))
      case Failure(e) =>
        if bearerPresent then Success(BearerDeferred)
        else if e.NoClientCertificate? then Failure(NoCredential)
        else Failure(e)
  }
}
