/** What the authorization pipeline guarantees, from configuration strings to the inner service. */
module CallerAuthTheorems {
  import opened Wrappers
  import opened Text
  import opened CallerAuth
  import opened CallerAuthLayer

  // Names and allowlists.

  lemma NewSanExactly(kind: SanKind, value: string)
    ensures NewSan(kind, value).Success? <==> UsableValue(value)
    ensures NewSan(kind, value).Success? ==> NewSan(kind, value).value == CallerSan(kind, value)
    ensures NewSan(kind, value) == Failure(Empty) <==> value == ""
    ensures NewSan(kind, value) == Failure(TooLong(ByteLength(value))) <==> ByteLength(value) > 1024
    ensures NewSan(kind, value) == Failure(Wildcard(value)) <==> ByteLength(value) <= 1024 && '*' in value
    ensures NewSan(kind, value) == Failure(IllegalCharacter(value)) <==>
            ByteLength(value) <= 1024 && '*' !in value && exists i :: 0 <= i < |value| && IllegalChar(value[i])
  {
    if '*' in value {
      var i :| 0 <= i < |value| && value[i] == '*';
    }
  }

  /** The name a configuration string stands for. */
  function Named(entry: string): CallerSan {
    CallerSan(if Contains(entry, "://") then Uri else Dns, entry)
  }

  lemma {:induction false} ParseEntriesExactly(entries: seq<string>)
    ensures ParseEntries(entries).Success? <==> forall i :: 0 <= i < |entries| ==> UsableValue(entries[i])
    ensures ParseEntries(entries).Success? ==>
              && |ParseEntries(entries).value| == |entries|
              && forall i :: 0 <= i < |entries| ==> ParseEntries(entries).value[i] == Named(entries[i])
    ensures ParseEntries(entries).Failure? ==>
              exists i :: 0 <= i < |entries| && ParseSan(entries[i]).Failure?
                          && ParseEntries(entries).error == InvalidEntry(entries[i], ParseSan(entries[i]).error)
                          && forall j :: 0 <= j < i ==> UsableValue(entries[j])
  {
    hide NewSan, UsableValue, Contains;
    if entries != [] {
      var rest := entries[1..];
      ParseEntriesExactly(rest);
      NewSanExactly(Named(entries[0]).kind, entries[0]);
      if ParseSan(entries[0]).Success? && ParseEntries(rest).Failure? {
        var i :| 0 <= i < |rest| && ParseSan(rest[i]).Failure?
                 && ParseEntries(rest).error == InvalidEntry(rest[i], ParseSan(rest[i]).error)
                 && forall j :: 0 <= j < i ==> UsableValue(rest[j]);
        assert rest[i] == entries[i + 1];
        forall j | 0 <= j < i + 1 ensures UsableValue(entries[j]) {
          if j > 0 { assert entries[j] == rest[j - 1]; }
        }
        assert ParseEntries(entries).error == InvalidEntry(entries[i + 1], ParseSan(entries[i + 1]).error);
      }
    }
  }

  /**
    An allowlist is built exactly when the list is non-empty and every entry is usable, and then it is
    the set of the names the strings stand for; otherwise the first unusable entry is reported.
   */
  lemma FromEntriesExactly(entries: seq<string>)
    ensures FromEntries(entries).Success? <==>
            entries != [] && forall i :: 0 <= i < |entries| ==> UsableValue(entries[i])
    ensures FromEntries(entries).Success? ==>
              forall s :: s in FromEntries(entries).value.names <==> s.value in entries && s == Named(s.value)
    ensures FromEntries(entries) == Failure(EmptyAllowlist) <==> entries == []
    ensures FromEntries(entries).Failure? && entries != [] ==>
              exists i :: 0 <= i < |entries| && ParseSan(entries[i]).Failure?
                          && FromEntries(entries).error == InvalidEntry(entries[i], ParseSan(entries[i]).error)
                          && forall j :: 0 <= j < i ==> UsableValue(entries[j])
  {
    hide UsableValue, ParseSan, Contains;
    ParseEntriesExactly(entries);
    if ParseEntries(entries).Success? {
      var parsed := ParseEntries(entries).value;
      var names := set i | 0 <= i < |parsed| :: parsed[i];
      if entries != [] {
        assert parsed[0] in names;
      }
      forall s ensures s in names <==> s.value in entries && s == Named(s.value) {
        if s.value in entries && s == Named(s.value) {
          var i :| 0 <= i < |entries| && entries[i] == s.value;
          assert parsed[i] == s;
        }
      }
    }
  }

  /** Order and repetition in the configuration make no difference. */
  lemma AllowlistDependsOnlyOnTheSet(a: seq<string>, b: seq<string>)
    requires forall e :: e in a <==> e in b
    ensures FromEntries(a).Success? <==> FromEntries(b).Success?
    ensures FromEntries(a).Success? ==> FromEntries(a) == FromEntries(b)
  {
    hide FromEntries, UsableValue, Contains;
    FromEntriesExactly(a);
    FromEntriesExactly(b);
    assert a == [] <==> b == [] by {
      assert a != [] ==> a[0] in b;
      assert b != [] ==> b[0] in a;
    }
    assert (forall i :: 0 <= i < |a| ==> UsableValue(a[i])) <==> (forall e :: e in a ==> UsableValue(e));
    assert (forall i :: 0 <= i < |b| ==> UsableValue(b[i])) <==> (forall e :: e in b ==> UsableValue(e));
    if FromEntries(a).Success? {
      assert FromEntries(a).value.names == FromEntries(b).value.names;
    }
  }

  // First match over the raw general names.

  ghost predicate AllowedAt(names: seq<GeneralName>, allowed: set<CallerSan>, i: nat, s: CallerSan) {
    i < |names| && StandsFor(names[i], s) && s in allowed
  }

  /** `s` is the earliest usable name on the allowlist. */
  ghost predicate EarliestAllowed(names: seq<GeneralName>, allowed: set<CallerSan>, s: CallerSan) {
    exists i: nat :: AllowedAt(names, allowed, i, s) && forall j: nat, t :: j < i ==> !AllowedAt(names, allowed, j, t)
  }

  ghost predicate NoneAllowed(names: seq<GeneralName>, allowed: set<CallerSan>) {
    forall i: nat, t :: !AllowedAt(names, allowed, i, t)
  }

  /** `s` is the earliest usable name. */
  ghost predicate EarliestUsable(names: seq<GeneralName>, s: CallerSan) {
    exists i: nat :: i < |names| && StandsFor(names[i], s) && forall j, t :: 0 <= j < i ==> !StandsFor(names[j], t)
  }

  ghost predicate NoneUsable(names: seq<GeneralName>) {
    forall i, t :: 0 <= i < |names| ==> !StandsFor(names[i], t)
  }

  lemma UsableIsStandsFor()
    ensures forall name, s :: StandsFor(name, s) <==> Usable(name) == Some(s)
  {
    forall name, s ensures StandsFor(name, s) <==> Usable(name) == Some(s) {
      UsableExactly(name, s);
    }
  }

  lemma {:induction false} FirstAllowedIsEarliest(names: seq<GeneralName>, allowlist: CallerAllowlist)
    ensures var r := FirstAllowed(UsableNames(names), allowlist);
            && (r.Some? ==> EarliestAllowed(names, allowlist.names, r.value))
            && (r.None? ==> NoneAllowed(names, allowlist.names))
  {
    hide Usable, StandsFor;
    var allowed := allowlist.names;
    if names != [] {
      var rest := names[1..];
      FirstAllowedIsEarliest(rest, allowlist);
      UsableIsStandsFor();
      assert forall i: nat, t :: AllowedAt(names, allowed, i + 1, t) <==> AllowedAt(rest, allowed, i, t);
      var head := Usable(names[0]);
      if head.Some? && head.value in allowed {
        assert UsableNames(names)[0] == head.value;
        assert AllowedAt(names, allowed, 0, head.value);
      } else {
        var r := FirstAllowed(UsableNames(rest), allowlist);
        assert FirstAllowed(UsableNames(names), allowlist) == r by {
          if head.Some? {
            assert UsableNames(names)[1..] == UsableNames(rest);
          } else {
            assert UsableNames(names) == UsableNames(rest);
          }
        }
        assert forall t :: !AllowedAt(names, allowed, 0, t);
        if r.Some? {
          var i: nat :| AllowedAt(rest, allowed, i, r.value) && forall j: nat, t :: j < i ==> !AllowedAt(rest, allowed, j, t);
          assert AllowedAt(names, allowed, i + 1, r.value);
          forall j: nat, t | j < i + 1 ensures !AllowedAt(names, allowed, j, t) {
            if j > 0 { assert !AllowedAt(rest, allowed, j - 1, t); }
          }
        } else {
          forall j: nat, t ensures !AllowedAt(names, allowed, j, t) {
            if j > 0 { assert !AllowedAt(rest, allowed, j - 1, t); }
          }
        }
      }
    }
  }

  lemma {:induction false} UsableHead(names: seq<GeneralName>)
    ensures UsableNames(names) == [] <==> NoneUsable(names)
    ensures UsableNames(names) != [] ==> EarliestUsable(names, UsableNames(names)[0])
  {
    hide Usable, StandsFor;
    UsableIsStandsFor();
    if names != [] {
      if Usable(names[0]).None? {
        var rest := names[1..];
        UsableHead(rest);
        assert UsableNames(names) == UsableNames(rest);
        if UsableNames(rest) != [] {
          var i: nat :| i < |rest| && StandsFor(rest[i], UsableNames(rest)[0])
                        && forall j, t :: 0 <= j < i ==> !StandsFor(rest[j], t);
          assert StandsFor(names[i + 1], UsableNames(names)[0]);
          forall j, t | 0 <= j < i + 1 ensures !StandsFor(names[j], t) {
            if j > 0 { assert names[j] == rest[j - 1]; }
          }
        } else {
          forall i, t | 0 <= i < |names| ensures !StandsFor(names[i], t) {
            if i > 0 { assert names[i] == rest[i - 1]; }
          }
        }
      } else {
        assert StandsFor(names[0], Usable(names[0]).value);
        assert UsableNames(names)[0] == Usable(names[0]).value;
      }
    }
  }

  lemma StandsForOne(name: GeneralName, s: CallerSan, t: CallerSan)
    requires StandsFor(name, s) && StandsFor(name, t)
    ensures s == t
  {
  }

  lemma EarliestAllowedUnique(names: seq<GeneralName>, allowed: set<CallerSan>, s: CallerSan, t: CallerSan)
    requires EarliestAllowed(names, allowed, s) && EarliestAllowed(names, allowed, t)
    ensures s == t && !NoneAllowed(names, allowed) && !NoneUsable(names)
  {
    hide StandsFor;
    var i: nat :| AllowedAt(names, allowed, i, s) && forall j: nat, u :: j < i ==> !AllowedAt(names, allowed, j, u);
    var k: nat :| AllowedAt(names, allowed, k, t) && forall j: nat, u :: j < k ==> !AllowedAt(names, allowed, j, u);
    StandsForOne(names[i], s, t);
  }

  lemma EarliestUsableUnique(names: seq<GeneralName>, s: CallerSan, t: CallerSan)
    requires EarliestUsable(names, s) && EarliestUsable(names, t)
    ensures s == t && !NoneUsable(names)
  {
    hide StandsFor;
    var i: nat :| i < |names| && StandsFor(names[i], s) && forall j, u :: 0 <= j < i ==> !StandsFor(names[j], u);
    var k: nat :| k < |names| && StandsFor(names[k], t) && forall j, u :: 0 <= j < k ==> !StandsFor(names[j], u);
    StandsForOne(names[i], s, t);
  }

  /** The names a policy admits: none when it has no allowlist. */
  ghost function Allowed(policy: Policy): set<CallerSan> {
    if policy.allowlist.Some? then policy.allowlist.value.names else {}
  }

  /**
    The certificate decision is the first match over the raw list: admitted as `s` exactly when `s` is
    the earliest usable allowlisted name; refused naming `s` exactly when none is allowlisted and `s` is
    the earliest usable name; `NoUsableSan` exactly when no name is usable.
   */
  lemma CertificateIsFirstMatch(policy: Policy, names: seq<GeneralName>, s: CallerSan)
    ensures var r := AuthorizeCertificate(policy, WithSan(names));
            && (r == Success(s) <==> EarliestAllowed(names, Allowed(policy), s))
            && (r == Failure(NotAllowlisted(s)) <==> NoneAllowed(names, Allowed(policy)) && EarliestUsable(names, s))
            && (r == Failure(NoUsableSan) <==> NoneUsable(names))
  {
    hide Usable, UsableNames, FirstAllowed, EarliestAllowed, EarliestUsable, NoneAllowed, NoneUsable;
    UsableHead(names);
    if EarliestUsable(names, s) && UsableNames(names) != [] {
      EarliestUsableUnique(names, s, UsableNames(names)[0]);
    }
    if EarliestUsable(names, s) {
      EarliestUsableUnique(names, s, s);
    }
    if policy.allowlist.Some? {
      FirstMatchOnAllowlist(policy.allowlist.value, names, s);
    } else {
      NothingAllowed(names, s);
    }
  }

  lemma NothingAllowed(names: seq<GeneralName>, s: CallerSan)
    ensures NoneAllowed(names, {}) && !EarliestAllowed(names, {}, s)
  {
    hide StandsFor;
  }

  lemma FirstMatchOnAllowlist(allowlist: CallerAllowlist, names: seq<GeneralName>, s: CallerSan)
    ensures var r := FirstAllowed(UsableNames(names), allowlist);
            && (r == Some(s) <==> EarliestAllowed(names, allowlist.names, s))
            && (r == None <==> NoneAllowed(names, allowlist.names))
            && (r.Some? ==> !NoneUsable(names))
  {
    hide Usable, UsableNames, FirstAllowed, EarliestAllowed, EarliestUsable, NoneAllowed, NoneUsable;
    FirstAllowedIsEarliest(names, allowlist);
    var r := FirstAllowed(UsableNames(names), allowlist);
    if r.Some? {
      EarliestAllowedUnique(names, allowlist.names, r.value, r.value);
    }
    if EarliestAllowed(names, allowlist.names, s) {
      EarliestAllowedUnique(names, allowlist.names, s, s);
      if r.Some? {
        EarliestAllowedUnique(names, allowlist.names, s, r.value);
      }
    }
  }

  /**
    In mtls mode every answer is decided by the leaf and the allowlist alone: a missing leaf, a leaf that does not
    decode and one without a usable name are told apart, and otherwise the first match decides.
   */
  lemma MtlsExactly(policy: Policy, leaf: Option<Leaf>, bearer: bool, s: CallerSan, reason: string)
    requires policy.mode.Mtls?
    ensures var r := Authorize(policy, leaf, bearer);
            var names := if leaf.Some? && leaf.value.WithSan? then leaf.value.names else [];
            && (r == Success(Certificate(s)) <==> EarliestAllowed(names, Allowed(policy), s))
            && r != Success(BearerDeferred)
            && (r == Failure(NoClientCertificate) <==> leaf.None?)
            && (r == Failure(MalformedCertificate(reason)) <==> leaf == Some(Malformed(reason)))
            && (r == Failure(NoUsableSan) <==> leaf.Some? && !leaf.value.Malformed? && NoneUsable(names))
            && (r == Failure(NotAllowlisted(s)) <==> NoneAllowed(names, Allowed(policy)) && EarliestUsable(names, s))
  {
    hide EarliestAllowed, EarliestUsable, NoneAllowed, NoneUsable, UsableNames, FirstAllowed;
    CertificateIsFirstMatch(policy, [], s);
    if leaf.Some? && leaf.value.WithSan? {
      CertificateIsFirstMatch(policy, leaf.value.names, s);
    } else {
      NothingListed(Allowed(policy), s);
    }
  }

  lemma NothingListed(allowed: set<CallerSan>, s: CallerSan)
    ensures NoneUsable([]) && NoneAllowed([], allowed) && !EarliestAllowed([], allowed, s) && !EarliestUsable([], s)
  {
  }

  // Erasure.

  /** A general name is unusable exactly when it is neither DNS nor URI, or its value cannot name a caller. */
  lemma UnusableExactly(name: GeneralName)
    ensures Usable(name).None? <==> name.OtherName? || !UsableValue(name.value)
  {
    match name
    case DnsName(value) => NewSanExactly(Dns, value);
    case UriName(value) => NewSanExactly(Uri, value);
    case OtherName =>
  }

  /** Inserting or deleting an unusable general name anywhere never changes a decision, in any mode. */
  lemma Erasure(policy: Policy, before: seq<GeneralName>, name: GeneralName, after: seq<GeneralName>, bearer: bool)
    requires name.OtherName? || !UsableValue(name.value)
    ensures Authorize(policy, Some(WithSan(before + [name] + after)), bearer)
            == Authorize(policy, Some(WithSan(before + after)), bearer)
  {
    hide UsableValue, Usable, UsableNames, FirstAllowed;
    UnusableExactly(name);
    UsableNamesAppend(before + [name], after);
    UsableNamesAppend(before, [name]);
    UsableNamesAppend(before, after);
    UnusableAlone(name);
    assert UsableNames(before) + [] == UsableNames(before);
  }

  lemma UnusableAlone(name: GeneralName)
    requires Usable(name).None?
    ensures UsableNames([name]) == []
  {
    assert [name][1..] == [];
  }

  // Cutover and monotonicity.

  function WithMode(policy: Policy, mode: Mode): Policy {
    policy.(mode := mode)
  }

  /**
    Moving from mtls to mtls-or-bearer keeps every admission, with the same name; every bearer-carrying
    caller is then admitted, on its bearer if the certificate does not do; and without a bearer the refusals are the mtls refusals, except that a
    missing certificate is reported as a missing credential.
   */
  lemma Cutover(policy: Policy, leaf: Option<Leaf>, bearer: bool)
    ensures var strict := Authorize(WithMode(policy, Mtls), leaf, bearer);
            var both := Authorize(WithMode(policy, MtlsOrBearer), leaf, bearer);
            && (strict.Success? ==> both == strict)
            && (bearer && strict.Failure? ==> both == Success(BearerDeferred))
            && Authorize(WithMode(policy, Bearer), leaf, bearer) == Success(BearerDeferred)
            && (!bearer && strict.Failure? ==>
                  both == Failure(if strict.error.NoClientCertificate? then NoCredential else strict.error))
            && (strict.Failure? && strict.error.NoClientCertificate? <==> leaf.None?)
  {
    hide UsableNames, FirstAllowed;
  }

  /** Presenting a bearer credential never turns admission into refusal, nor changes who was admitted. */
  lemma BearerNeverHurts(policy: Policy, leaf: Option<Leaf>)
    requires Authorize(policy, leaf, false).Success?
    ensures Authorize(policy, leaf, true) == Authorize(policy, leaf, false)
  {
    hide UsableNames, FirstAllowed;
  }

  lemma {:induction false} FirstAllowedGrows(sans: seq<CallerSan>, small: CallerAllowlist, large: CallerAllowlist)
    requires small.names <= large.names && FirstAllowed(sans, small).Some?
    ensures FirstAllowed(sans, large).Some?
  {
    if sans != [] && sans[0] !in large.names {
      FirstAllowedGrows(sans[1..], small, large);
    }
  }

  /** Enlarging the allowlist never turns admission into refusal. */
  lemma AllowlistMonotone(policy: Policy, large: CallerAllowlist, leaf: Option<Leaf>, bearer: bool)
    requires policy.allowlist.Some? ==> policy.allowlist.value.names <= large.names
    requires Authorize(policy, leaf, bearer).Success?
    ensures Authorize(policy.(allowlist := Some(large)), leaf, bearer).Success?
  {
    hide UsableNames, FirstAllowed;
    if leaf.Some? && AuthorizeCertificate(policy, leaf.value).Success? {
      var sans := SubjectAltNames(leaf.value).value;
      FirstAllowedGrows(sans, policy.allowlist.value, large);
    }
  }

  // From the configuration section to the inner service.

  /** A name the configuration's strings admit: listed verbatim, under the kind its spelling implies. */
  ghost function ConfiguredNames(config: CallerAuthConfig): set<CallerSan> {
    set e | e in config.allowlist :: Named(e)
  }

  lemma PolicyFromConfig(config: CallerAuthConfig)
    ensures ToPolicy(config).Success? <==>
            if config.mode.Bearer? then config.allowlist == []
            else config.allowlist != [] && forall i :: 0 <= i < |config.allowlist| ==> UsableValue(config.allowlist[i])
    ensures ToPolicy(config).Success? ==>
              var policy := ToPolicy(config).value;
              && policy.mode == config.mode && policy.publicPaths == config.publicPaths
              && (policy.allowlist.Some? <==> !config.mode.Bearer?)
              && (policy.allowlist.Some? ==> policy.allowlist.value.names == ConfiguredNames(config))
    ensures ToPolicy(config).Failure? ==>
              ToPolicy(config).error ==
              if config.mode.Bearer? then AllowlistWithoutCertificateMode else FromEntries(config.allowlist).error
  {
    hide UsableValue, FromEntries, Contains;
    FromEntriesExactly(config.allowlist);
    if ToPolicy(config).Success? && !config.mode.Bearer? {
      assert ToPolicy(config).value.allowlist.value.names == ConfiguredNames(config);
    }
  }

  /** The raw statement of "admitted by certificate as `s`", over strings and general names only. */
  ghost predicate AdmittedAs(config: CallerAuthConfig, leaf: Option<Leaf>, s: CallerSan) {
    leaf.Some? && leaf.value.WithSan? && EarliestAllowed(leaf.value.names, ConfiguredNames(config), s)
  }

  lemma CertificateAdmission(config: CallerAuthConfig, leaf: Option<Leaf>, bearer: bool, s: CallerSan)
    requires ToPolicy(config).Success? && !config.mode.Bearer?
    ensures Authorize(ToPolicy(config).value, leaf, bearer) == Success(Certificate(s)) <==> AdmittedAs(config, leaf, s)
  {
    hide ToPolicy, AuthorizeCertificate, EarliestAllowed, ConfiguredNames;
    PolicyFromConfig(config);
    var policy := ToPolicy(config).value;
    if leaf.Some? {
      match leaf.value
      case WithSan(names) => CertificateIsFirstMatch(policy, names, s);
      case _ => OnlySanExtensionsAdmit(policy, leaf.value);
    }
  }

  lemma OnlySanExtensionsAdmit(policy: Policy, leaf: Leaf)
    requires !leaf.WithSan?
    ensures AuthorizeCertificate(policy, leaf).Failure?
  {
  }

  /**
    Every name a configured policy admits is one of its own strings and parses back to itself, so a DNS
    name spelling a URI, or a URI without "://", is never admitted.
   */
  lemma AdmittedNamesParseBack(config: CallerAuthConfig, leaf: Option<Leaf>, bearer: bool, s: CallerSan)
    requires ToPolicy(config).Success?
    requires Authorize(ToPolicy(config).value, leaf, bearer) == Success(Certificate(s))
    ensures s.value in config.allowlist && ParseSan(s.value) == Success(s)
    ensures s.kind.Uri? <==> Contains(s.value, "://")
  {
    hide UsableNames, FirstAllowed, Contains, UsableValue, ToPolicy;
    PolicyFromConfig(config);
    CertificateAdmission(config, leaf, bearer, s);
    assert s in ConfiguredNames(config) by { AllowedIsListed(leaf.value.names, ConfiguredNames(config), s); }
    var i :| 0 <= i < |config.allowlist| && config.allowlist[i] == s.value;
    NewSanExactly(Named(s.value).kind, s.value);
  }

  lemma AllowedIsListed(names: seq<GeneralName>, allowed: set<CallerSan>, s: CallerSan)
    requires EarliestAllowed(names, allowed, s)
    ensures s in allowed
  {
    hide Usable;
  }

  /** Paths that bypass authorization: the style's own infrastructure, or under a configured public prefix. */
  ghost predicate Public(config: CallerAuthConfig, style: Style, path: string) {
    || (style.Http? && (path == "/health" || path == "/ready" || "/swagger-ui" <= path || "/api-docs" <= path))
    || (style.Grpc? && ("/grpc.health.v1.Health/" <= path || "/grpc.reflection." <= path))
    || exists p :: p in config.publicPaths && p <= path
  }

  lemma ExemptExactly(config: CallerAuthConfig, style: Style, path: string)
    requires ToPolicy(config).Success?
    ensures IsExempt(ToPolicy(config).value, style, path) <==> Public(config, style, path)
  {
    hide ToPolicy;
    PolicyFromConfig(config);
    var paths := config.publicPaths;
    if p :| p in paths && p <= path {
      var i :| 0 <= i < |paths| && paths[i] == p;
      assert StartsWith(path, paths[i]);
    }
    if i :| 0 <= i < |paths| && StartsWith(path, paths[i]) {
      assert paths[i] in paths;
    }
  }

  /** The first Authorization header reads "bearer" in any letter case, a space, and something more. */
  ghost predicate PresentsBearer(authorization: seq<string>) {
    authorization != [] && BearerHeader(authorization[0])
  }

  /**
    End to end, for every section that makes a policy and every request: it is forwarded exactly when the mode is
    bearer, the path is public, a certificate admits it, or the mode is mtls-or-bearer and it presents a bearer.
    A guarded request admitted by certificate carries that name, and waives the bearer exactly in mtls-or-bearer
    mode; any other forwarded request keeps the identity it came with; a refusal carries the decision's error.
   */
  lemma EndToEnd(config: CallerAuthConfig, style: Style, request: View)
    requires ToPolicy(config).Success?
    ensures var policy := ToPolicy(config).value;
            var verdict := Judge(policy, style, request);
            var guarded := !config.mode.Bearer? && !Public(config, style, request.path);
            var bearer := PresentsBearer(request.authorization);
            && (verdict.Forward? <==> !guarded || (exists s :: AdmittedAs(config, request.leaf, s))
                                      || (config.mode.MtlsOrBearer? && bearer))
            && (verdict.Forward? ==>
                  && (forall s :: guarded && AdmittedAs(config, request.leaf, s) ==>
                        verdict.identity == Some(CallerIdentity(s, config.mode.MtlsOrBearer?)))
                  && (!(guarded && exists s :: AdmittedAs(config, request.leaf, s)) ==> verdict.identity == request.identity))
            && (verdict.Reject? ==> Authorize(policy, request.leaf, bearer) == Failure(verdict.error))
  {
    hide ToPolicy, IsExempt, Public, HasBearerCredential, PresentsBearer, AdmittedAs, AuthorizeCertificate;
    PolicyFromConfig(config);
    ExemptExactly(config, style, request.path);
    BearerExactly(request.authorization);
    var policy := ToPolicy(config).value;
    var bearer := HasBearerCredential(request.authorization);
    if !config.mode.Bearer? && !IsExempt(policy, style, request.path) {
      forall s ensures Authorize(policy, request.leaf, bearer) == Success(Certificate(s)) <==> AdmittedAs(config, request.leaf, s) {
        CertificateAdmission(config, request.leaf, bearer, s);
      }
    }
  }

  lemma BearerExactly(authorization: seq<string>)
    ensures HasBearerCredential(authorization) <==> PresentsBearer(authorization)
  {
    hide IsBearer, BearerHeader;
    if authorization != [] {
      IsBearerExactly(authorization[0]);
    }
  }

  /**
    What the inner service sees of a request that arrived without an identity: one exactly when a guarded request
    was admitted by certificate, and a waived bearer exactly when, besides, the mode is mtls-or-bearer.
   */
  lemma InnerServiceSees(config: CallerAuthConfig, style: Style, request: View)
    requires ToPolicy(config).Success? && request.identity.None? && Judge(ToPolicy(config).value, style, request).Forward?
    ensures var identity := Judge(ToPolicy(config).value, style, request).identity;
            var byCertificate := !config.mode.Bearer? && !Public(config, style, request.path)
                                 && exists s :: AdmittedAs(config, request.leaf, s);
            && (identity.Some? <==> byCertificate)
            && (BearerWaived(identity) <==> byCertificate && config.mode.MtlsOrBearer?)
  {
    hide ToPolicy, Judge, Public, AdmittedAs;
    EndToEnd(config, style, request);
  }

  /** A lone "Bearer x" header is a credential, in any letter case and for any token of visible characters. */
  lemma BearerOfAnyCase(scheme: string, token: string)
    requires |scheme| == 6 && forall i :: 0 <= i < 6 ==> scheme[i] == "bearer"[i] || scheme[i] == "BEARER"[i]
    requires token != "" && forall i :: 0 <= i < |token| ==> '!' <= token[i] <= '~'
    ensures HasBearerCredential([scheme + " " + token])
  {
    hide IsBearer;
    var value := scheme + " " + token;
    assert value[6] == ' ';
    forall i | 0 <= i < |value| ensures ' ' <= value[i] <= '~' {
      if i < 6 {
        assert value[i] == scheme[i];
      } else if i > 6 {
        assert value[i] == token[i - 7];
      }
    }
    IsBearerExactly(value);
  }
}
