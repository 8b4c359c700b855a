/**
 TLS configurations: which protocol and verification policy one means, when it is valid, what a
 native context is told, and how a server picks the configuration for one client hello.
 */
module TlsConfig {
  import opened Results
  import opened Octets

  type uint8 = n: nat | n < 0x100
  type uint16 = n: nat | n < 0x1_0000

  const PROTOCOL_DEFAULT: uint8 := 0
  const PROTOCOL_TLS: uint8 := 1
  const PROTOCOL_NTLS: uint8 := 2
  const PROTOCOL_MIXED: uint8 := 3

  const VERIFY_DEFAULT: uint8 := 0
  const VERIFY_NONE: uint8 := 1
  const VERIFY_REPORT: uint8 := 2
  const VERIFY_STRICT: uint8 := 3

  const NO_CLIENT_CERT: uint8 := 0
  const REQUIRE_ANY_CLIENT_CERT: uint8 := 2
  const VERIFY_CLIENT_CERT_IF_GIVEN: uint8 := 3
  const REQUIRE_AND_VERIFY_CLIENT_CERT: uint8 := 4

  const NTLS_VERSION: uint16 := 0x0101

  const ALL_OPTIONS: bv64 := 0x4042_0000
  const ALL_MODES: bv64 := 3
  const ALL_FLAGS: bv32 := 63

  /** Certificates and keys are objects of the caller's; here they are their identities. */
  datatype Credential = Credential(leaf: Option<nat>, key: Option<nat>, chain: seq<nat>) {
    predicate Full() {
      leaf.Some? && key.Some?
    }
  }

  /** A configuration struct. Callbacks are flags; what they answer comes with each selection. */
  datatype Config = Config(
    protocol: uint8, ntls: bool, verification: uint8, clientAuth: uint8,
    minVersion: uint16, maxVersion: uint16,
    insecureSkipVerify: bool, rootCAs: seq<nat>, clientCAs: seq<nat>,
    serverName: string, verificationName: string, email: string, hostnameFlags: bv32,
    curves: seq<string>, signatures: seq<string>, ciphers: seq<string>, dhParameters: bytes,
    options: bv64, modes: bv64,
    tls: Credential, sign: Credential, enc: Credential,
    getConfig: bool, getCertificate: bool, getNtlsCertificate: bool)

  // ----- protocol and policy -----

  function ProtocolMode(cfg: Config, client: bool): Result<uint8> {
    if cfg.protocol > PROTOCOL_MIXED then Err
    else
      var mode := if cfg.protocol != PROTOCOL_DEFAULT then cfg.protocol
                  else if cfg.ntls then PROTOCOL_NTLS else PROTOCOL_TLS;
      if cfg.ntls && mode != PROTOCOL_NTLS then Err
      else if client && mode == PROTOCOL_MIXED then Err
      else Ok(mode)
  }

  predicate SkipsVerification(cfg: Config) {
    cfg.insecureSkipVerify || (cfg.rootCAs == [] && cfg.serverName == "")
  }

  predicate VerifiesClients(cfg: Config) {
    cfg.clientAuth == VERIFY_CLIENT_CERT_IF_GIVEN || cfg.clientAuth == REQUIRE_AND_VERIFY_CLIENT_CERT
  }

  predicate RequiresClients(cfg: Config) {
    cfg.clientAuth == REQUIRE_ANY_CLIENT_CERT || cfg.clientAuth == REQUIRE_AND_VERIFY_CLIENT_CERT
  }

  function EffectiveVerification(cfg: Config, client: bool): uint8 {
    if cfg.verification != VERIFY_DEFAULT then cfg.verification
    else if client then if SkipsVerification(cfg) then VERIFY_NONE else VERIFY_STRICT
    else if VerifiesClients(cfg) then VERIFY_STRICT
    else VERIFY_NONE
  }

  // ----- validation -----

  predicate KnownVersion(v: uint16) {
    v == 0x0301 || v == 0x0302 || v == 0x0303 || v == 0x0304 || v == NTLS_VERSION
  }

  predicate OnlyBits64(bits: bv64, mask: bv64) {
    bits & !mask == 0
  }

  predicate OnlyBits32(bits: bv32, mask: bv32) {
    bits & !mask == 0
  }

  predicate HasNul(texts: seq<string>) {
    exists i :: 0 <= i < |texts| && 0 as char in texts[i]
  }

  /** The checks in the order they are made. */
  predicate Valid(cfg: Config, client: bool) {
    var mode := ProtocolMode(cfg, client);
    if mode.Err? then false
    else if mode.value == PROTOCOL_NTLS
            && ((cfg.minVersion != 0 && cfg.minVersion != NTLS_VERSION)
                || (cfg.maxVersion != 0 && cfg.maxVersion != NTLS_VERSION))
    then false
    else if mode.value != PROTOCOL_NTLS && (cfg.minVersion == NTLS_VERSION || cfg.maxVersion == NTLS_VERSION) then false
    else if |cfg.dhParameters| > 0x7fff_ffff then false
    else if "" in cfg.curves || "" in cfg.signatures then false
    else if cfg.verification > VERIFY_STRICT || cfg.clientAuth > REQUIRE_AND_VERIFY_CLIENT_CERT then false
    else if cfg.verification != VERIFY_DEFAULT && cfg.insecureSkipVerify then false
    else if !client && VerifiesClients(cfg) && cfg.verification != VERIFY_DEFAULT && cfg.verification != VERIFY_STRICT
    then false
    else if (cfg.minVersion != 0 && !KnownVersion(cfg.minVersion))
            || (cfg.maxVersion != 0 && !KnownVersion(cfg.maxVersion))
    then false
    else if cfg.minVersion != 0 && cfg.maxVersion != 0 && cfg.minVersion > cfg.maxVersion then false
    else if !OnlyBits64(cfg.options, ALL_OPTIONS) || !OnlyBits64(cfg.modes, ALL_MODES) then false
    else if !OnlyBits32(cfg.hostnameFlags, ALL_FLAGS) then false
    else !HasNul([cfg.serverName, cfg.verificationName, cfg.email] + cfg.curves + cfg.signatures + cfg.ciphers)
  }

  /** Null is no configuration at all. */
  predicate ValidServer(cfg: Option<Config>) {
    cfg.Some?
    && var c := cfg.value;
       Valid(c, false)
       && var mode := ProtocolMode(c, false).value;
          c.getConfig
          || ((mode != PROTOCOL_NTLS && !c.getCertificate ==> c.tls.Full())
              && (mode != PROTOCOL_TLS && !c.getNtlsCertificate ==> c.sign.Full() && c.enc.Full()))
  }

  // ----- what a native context is told -----

  /** The verify mode has bit 1 for asking the peer and bit 2 for requiring a certificate. */
  datatype Plan = Plan(
    mode: uint8, verifyMode: nat, continues: bool, verifyEnabled: bool, defaultPaths: bool, selects: bool)

  function ContextPlan(cfg: Config, client: bool): Result<Plan> {
    if !Valid(cfg, client) then Err
    else
      var mode := ProtocolMode(cfg, client).value;
      var policy := EffectiveVerification(cfg, client);
      var verifyMode :=
        if client then if policy != VERIFY_NONE then 1 else 0
        else if cfg.clientAuth == NO_CLIENT_CERT then 0
        else if RequiresClients(cfg) then 3
        else 1;
      var roots := if client then cfg.rootCAs else cfg.clientCAs;
      Ok(Plan(mode, verifyMode, policy == VERIFY_NONE || policy == VERIFY_REPORT, policy != VERIFY_NONE,
              roots == [] && policy != VERIFY_NONE && cfg.verification != VERIFY_DEFAULT,
              !client && (mode == PROTOCOL_MIXED || cfg.getConfig || cfg.getCertificate || cfg.getNtlsCertificate)))
  }

  // ----- selection -----

  /** What the callbacks answer to one client hello: an error, nothing, or a value. */
  datatype Answers = Answers(
    config: Result<Option<Config>>, certificate: Result<Option<Credential>>,
    ntlsPair: Result<Option<(Credential, Credential)>>)

  /** The configuration a selection starts from. */
  function Chosen(base: Config, answers: Answers): Result<Config> {
    if !base.getConfig then Ok(base)
    else if answers.config.Err? then Err
    else if answers.config.value.None? then Ok(base)
    else Ok(answers.config.value.value)
  }

  predicate Rejects(mode: uint8, ntls: bool) {
    (ntls && mode == PROTOCOL_TLS) || (!ntls && mode == PROTOCOL_NTLS)
  }

  /** The chosen configuration with the credentials its callbacks picked. */
  function WithCredentials(cfg: Config, ntls: bool, answers: Answers): Result<Config> {
    if ntls && cfg.getNtlsCertificate then
      if answers.ntlsPair.Err? || answers.ntlsPair.value.None? then Err
      else Ok(cfg.(sign := answers.ntlsPair.value.value.0, enc := answers.ntlsPair.value.value.1))
    else if !ntls && cfg.getCertificate then
      if answers.certificate.Err? || answers.certificate.value.None? then Err
      else Ok(cfg.(tls := answers.certificate.value.value))
    else Ok(cfg)
  }

  function Narrowed(cfg: Config, mode: uint8, ntls: bool): Config {
    var bounded := if ntls && mode == PROTOCOL_MIXED then cfg.(minVersion := 0, maxVersion := 0) else cfg;
    bounded.(protocol := if ntls then PROTOCOL_NTLS else PROTOCOL_TLS, ntls := ntls,
             getConfig := false, getCertificate := false, getNtlsCertificate := false)
  }

  function Select(base: Config, ntls: bool, answers: Answers): Result<Config> {
    var chosen := Chosen(base, answers);
    if chosen.Err? then Err
    else
      var cfg := chosen.value;
      if base.curves != [] && cfg.curves == [] then Err
      else
        var mode := ProtocolMode(cfg, false);
        if mode.Err? || Rejects(mode.value, ntls) then Err
        else
          var with := WithCredentials(cfg, ntls, answers);
          if with.Err? then Err
          else
            var narrowed := Narrowed(with.value, mode.value, ntls);
            if ValidServer(Some(narrowed)) then Ok(narrowed) else Err
  }

  // ----- what validation and selection promise -----

  /** Validity as a list of requirements. */
  predicate WellFormed(cfg: Config, client: bool) {
    cfg.protocol <= PROTOCOL_MIXED && (cfg.ntls ==> cfg.protocol == PROTOCOL_DEFAULT || cfg.protocol == PROTOCOL_NTLS)
    && (client ==> cfg.protocol != PROTOCOL_MIXED)
    && VersionsFit(cfg)
    && |cfg.dhParameters| < 0x8000_0000 && "" !in cfg.curves && "" !in cfg.signatures
    && cfg.verification <= VERIFY_STRICT && cfg.clientAuth <= REQUIRE_AND_VERIFY_CLIENT_CERT
    && (cfg.insecureSkipVerify ==> cfg.verification == VERIFY_DEFAULT)
    && (!client && VerifiesClients(cfg) ==> cfg.verification == VERIFY_DEFAULT || cfg.verification == VERIFY_STRICT)
    && OnlyBits64(cfg.options, ALL_OPTIONS) && cfg.modes < 4 && cfg.hostnameFlags < 64
    && 0 as char !in cfg.serverName && 0 as char !in cfg.verificationName && 0 as char !in cfg.email
    && !HasNul(cfg.curves) && !HasNul(cfg.signatures) && !HasNul(cfg.ciphers)
  }

  predicate MeansNtls(cfg: Config) {
    cfg.protocol == PROTOCOL_NTLS || (cfg.protocol == PROTOCOL_DEFAULT && cfg.ntls)
  }

  predicate VersionFits(version: uint16, ntls: bool) {
    version == 0 || if ntls then version == NTLS_VERSION else 0x0301 <= version <= 0x0304
  }

  /** Bounds are absent or of the protocol's own versions, and in order. */
  predicate VersionsFit(cfg: Config) {
    VersionFits(cfg.minVersion, MeansNtls(cfg)) && VersionFits(cfg.maxVersion, MeansNtls(cfg))
    && (cfg.minVersion != 0 && cfg.maxVersion != 0 ==> cfg.minVersion <= cfg.maxVersion)
  }

  lemma Masks(modes: bv64, flags: bv32)
    ensures OnlyBits64(modes, ALL_MODES) <==> modes < 4
    ensures OnlyBits32(flags, ALL_FLAGS) <==> flags < 64
  {
  }

  lemma NulInParts(a: seq<string>, b: seq<string>)
    ensures HasNul(a + b) <==> HasNul(a) || HasNul(b)
  {
    if HasNul(a) {
      var i :| 0 <= i < |a| && 0 as char in a[i];
      assert (a + b)[i] == a[i];
    }
    if HasNul(b) {
      var i :| 0 <= i < |b| && 0 as char in b[i];
      assert (a + b)[|a| + i] == b[i];
    }
  }

  lemma NulInNames(cfg: Config)
    ensures HasNul([cfg.serverName, cfg.verificationName, cfg.email] + cfg.curves + cfg.signatures + cfg.ciphers)
            <==> 0 as char in cfg.serverName || 0 as char in cfg.verificationName || 0 as char in cfg.email
                 || HasNul(cfg.curves) || HasNul(cfg.signatures) || HasNul(cfg.ciphers)
  {
    var names := [cfg.serverName, cfg.verificationName, cfg.email];
    NulInParts(names + cfg.curves + cfg.signatures, cfg.ciphers);
    NulInParts(names + cfg.curves, cfg.signatures);
    NulInParts(names, cfg.curves);
    assert names[0] == cfg.serverName && names[1] == cfg.verificationName && names[2] == cfg.email;
  }

  /** The checks accept exactly the well-formed configurations. */
  lemma ValidIsWellFormed(cfg: Config, client: bool)
    ensures Valid(cfg, client) <==> WellFormed(cfg, client)
  {
    Masks(cfg.modes, cfg.hostnameFlags);
    NulInNames(cfg);
    hide HasNul, OnlyBits64, OnlyBits32;
  }

  /** A selected configuration serves one protocol, the negotiated one, and can never select again. */
  lemma SelectedIsFinal(base: Config, ntls: bool, answers: Answers)
    requires Select(base, ntls, answers).Ok?
    ensures var r := Select(base, ntls, answers).value;
            ValidServer(Some(r)) && r.ntls == ntls
            && ProtocolMode(r, false) == Ok(if ntls then PROTOCOL_NTLS else PROTOCOL_TLS)
            && (if ntls then r.sign.Full() && r.enc.Full() else r.tls.Full())
            && !r.getConfig && !r.getCertificate && !r.getNtlsCertificate
            && ContextPlan(r, false).Ok? && !ContextPlan(r, false).value.selects
  {
    hide HasNul;
  }

  /** Where the credentials of a selected configuration come from, and what else is kept. */
  lemma SelectedCredentials(base: Config, ntls: bool, answers: Answers)
    requires Select(base, ntls, answers).Ok?
    ensures Chosen(base, answers).Ok?
    ensures var cfg := Chosen(base, answers).value;
            var r := Select(base, ntls, answers).value;
            (ntls && cfg.getNtlsCertificate ==> answers.ntlsPair == Ok(Some((r.sign, r.enc))) && r.tls == cfg.tls)
            && (!ntls && cfg.getCertificate
                ==> answers.certificate == Ok(Some(r.tls)) && r.sign == cfg.sign && r.enc == cfg.enc)
            && ((if ntls then !cfg.getNtlsCertificate else !cfg.getCertificate)
                ==> r.tls == cfg.tls && r.sign == cfg.sign && r.enc == cfg.enc)
            && r.verification == cfg.verification && r.clientAuth == cfg.clientAuth && r.clientCAs == cfg.clientCAs
            && EffectiveVerification(r, false) == EffectiveVerification(cfg, false)
            && (base.curves != [] ==> r.curves != [])
            && (!MeansNtls(cfg) && !ntls ==> r.minVersion == cfg.minVersion && r.maxVersion == cfg.maxVersion)
  {
    hide Valid;
  }

  /** A validated server configuration that picks no other one is selected whenever its own callbacks deliver. */
  lemma SelectionSucceeds(base: Config, ntls: bool, answers: Answers)
    requires ValidServer(Some(base)) && !base.getConfig
    ensures Select(base, ntls, answers).Ok? <==>
              !Rejects(ProtocolMode(base, false).value, ntls)
              && (if ntls then base.getNtlsCertificate ==> answers.ntlsPair.Ok? && answers.ntlsPair.value.Some?
                                                           && answers.ntlsPair.value.value.0.Full()
                                                           && answers.ntlsPair.value.value.1.Full()
                  else base.getCertificate ==> answers.certificate.Ok? && answers.certificate.value.Some?
                                               && answers.certificate.value.value.Full())
  {
    ValidIsWellFormed(base, false);
    var with := WithCredentials(base, ntls, answers);
    if with.Ok? && !Rejects(ProtocolMode(base, false).value, ntls) {
      var narrowed := Narrowed(with.value, ProtocolMode(base, false).value, ntls);
      ValidIsWellFormed(narrowed, false);
      hide Valid;
    }
  }

  /**
   A validated server that verifies client certificates asks for one, aborts on failure and never
   continues; it requires one exactly in the stricter of the two modes.
   */
  lemma VerifyingServerIsStrict(cfg: Config)
    requires ValidServer(Some(cfg)) && VerifiesClients(cfg)
    ensures EffectiveVerification(cfg, false) == VERIFY_STRICT
    ensures var plan := ContextPlan(cfg, false);
            plan.Ok? && !plan.value.continues && plan.value.verifyEnabled && plan.value.verifyMode % 2 == 1
            && (plan.value.verifyMode >= 2 <==> cfg.clientAuth == REQUIRE_AND_VERIFY_CLIENT_CERT)
  {
    hide HasNul;
  }

  /** Exactly these validated servers both ask for a certificate and abort on a bad one. */
  lemma ServerAborts(cfg: Config)
    requires ValidServer(Some(cfg))
    ensures var plan := ContextPlan(cfg, false).value;
            (!plan.continues && plan.verifyMode % 2 == 1)
            <==> (VerifiesClients(cfg) || (cfg.verification == VERIFY_STRICT && cfg.clientAuth != NO_CLIENT_CERT))
  {
    hide HasNul;
  }

  /**
   Exactly when a client verifies: an explicit policy decides; without one, insecure skipping forbids
   it, and either roots or a server name bring it about.
   */
  lemma ClientPolicy(cfg: Config)
    requires Valid(cfg, true)
    ensures var plan := ContextPlan(cfg, true);
            plan.Ok? && !plan.value.selects && plan.value.mode != PROTOCOL_MIXED
            && (plan.value.verifyMode == 1 <==> plan.value.verifyEnabled)
            && (plan.value.verifyMode == 1
                <==> if cfg.verification == VERIFY_DEFAULT
                     then !cfg.insecureSkipVerify && (cfg.rootCAs != [] || cfg.serverName != "")
                     else cfg.verification != VERIFY_NONE)
            && (plan.value.verifyEnabled && plan.value.continues <==> cfg.verification == VERIFY_REPORT)
            && (cfg.insecureSkipVerify ==> plan.value.verifyMode == 0 && plan.value.continues)
  {
    hide HasNul;
  }

  /** A valid client without any roots that verifies, because it names its server. */
  lemma VerifiesWithoutRoots() returns (cfg: Config)
    ensures Valid(cfg, true) && cfg.rootCAs == [] && cfg.verification == VERIFY_DEFAULT
    ensures ContextPlan(cfg, true).Ok? && ContextPlan(cfg, true).value.verifyMode == 1
    ensures !ContextPlan(cfg, true).value.defaultPaths
  {
    var none := Credential(None, None, []);
    cfg := Config(PROTOCOL_DEFAULT, false, VERIFY_DEFAULT, NO_CLIENT_CERT, 0, 0, false, [], [], "a", "", "", 0,
                  [], [], [], [], 0, 0, none, none, none, false, false, false);
    ValidIsWellFormed(cfg, true);
    Masks(0, 0);
  }

  // ----- selection in place -----

  /** A configuration as callers hold it: by reference. */
  class ConfigRef {
    var it: Config

    constructor (it: Config)
      ensures this.it == it
    {
      this.it := it;
    }

    method Clone() returns (copy: ConfigRef)
      ensures fresh(copy) && copy.it == it
    {
      copy := new ConfigRef(it);
    }
  }

  function Seen(next: Result<Option<Config>>, answers: Answers): Answers {
    answers.(config := next)
  }

  /** The configuration a callback's reference stands for. */
  function Target(next: Result<ConfigRef?>): Result<Option<Config>>
    reads if next.Ok? && next.value != null then {next.value} else {}
  {
    if next.Err? then Err else if next.value == null then Ok(None) else Ok(Some(next.value.it))
  }

  /**
   Picks the configuration for one client hello and builds its context. Everything is done to a
   copy: no configuration that existed before is changed.
   */
  method SelectServerConfig(base: ConfigRef, next: Result<ConfigRef?>, ntls: bool, answers: Answers)
    returns (plan: Result<Plan>, selected: Option<Config>)
    ensures var spec := Select(base.it, ntls, Seen(Target(next), answers));
            if spec.Err? then plan.Err? && selected.None?
            else selected == Some(spec.value) && plan == ContextPlan(spec.value, false)
  {
    hide Valid, ValidServer, ProtocolMode, Narrowed, ContextPlan, Chosen;
    plan, selected := Err, None;
    var cfg := Choose(base, next, answers);
    if cfg == null {
      return;
    }
    if |base.it.curves| > 0 && |cfg.it.curves| == 0 {
      return;
    }
    var mode := ProtocolMode(cfg.it, false);
    if mode.Err? || (ntls && mode.value == PROTOCOL_TLS) || (!ntls && mode.value == PROTOCOL_NTLS) {
      return;
    }
    var ok := PickCredentials(cfg, ntls, answers);
    if !ok {
      return;
    }
    Narrow(cfg, mode.value, ntls);
    if !ValidServer(Some(cfg.it)) {
      return;
    }
    plan, selected := ContextPlan(cfg.it, false), Some(cfg.it);
  }

  /** A copy of the configuration to start from, or null if the callback failed. */
  method Choose(base: ConfigRef, next: Result<ConfigRef?>, ghost answers: Answers) returns (cfg: ConfigRef?)
    ensures var chosen := Chosen(base.it, Seen(Target(next), answers));
            if cfg == null then chosen.Err? else fresh(cfg) && chosen == Ok(cfg.it)
  {
    var from := base;
    if base.it.getConfig {
      if next.Err? {
        return null;
      }
      if next.value != null {
        from := next.value;
      }
    }
    cfg := from.Clone();
  }

  method PickCredentials(cfg: ConfigRef, ntls: bool, answers: Answers) returns (ok: bool)
    modifies cfg
    ensures ok <==> WithCredentials(old(cfg.it), ntls, answers).Ok?
    ensures ok ==> cfg.it == WithCredentials(old(cfg.it), ntls, answers).value
  {
    if ntls && cfg.it.getNtlsCertificate {
      if answers.ntlsPair.Err? || answers.ntlsPair.value.None? {
        return false;
      }
      var pair := answers.ntlsPair.value.value;
      cfg.it := cfg.it.(sign := pair.0);
      cfg.it := cfg.it.(enc := pair.1);
    } else if !ntls && cfg.it.getCertificate {
      if answers.certificate.Err? || answers.certificate.value.None? {
        return false;
      }
      cfg.it := cfg.it.(tls := answers.certificate.value.value);
    }
    return true;
  }

  /**
   Leaves a configuration that means the negotiated protocol and nothing else and picks no other
   one. TLS bounds do not apply to NTLS out of a mixed configuration; no other field changes.
   */
  method Narrow(cfg: ConfigRef, mode: uint8, ntls: bool)
    modifies cfg
    ensures cfg.it == Narrowed(old(cfg.it), mode, ntls)
    ensures ProtocolMode(cfg.it, false) == Ok(if ntls then PROTOCOL_NTLS else PROTOCOL_TLS)
    ensures MeansNtls(cfg.it) == ntls && ProtocolMode(cfg.it, true) == ProtocolMode(cfg.it, false)
    ensures !cfg.it.getConfig && !cfg.it.getCertificate && !cfg.it.getNtlsCertificate
    ensures mode == PROTOCOL_MIXED && VersionsFit(old(cfg.it)) && !MeansNtls(old(cfg.it)) ==> VersionsFit(cfg.it)
    ensures mode != PROTOCOL_MIXED || !ntls
            ==> cfg.it.minVersion == old(cfg.it.minVersion) && cfg.it.maxVersion == old(cfg.it.maxVersion)
    ensures cfg.it == old(cfg.it).(protocol := cfg.it.protocol, ntls := ntls,
                                   minVersion := cfg.it.minVersion, maxVersion := cfg.it.maxVersion,
                                   getConfig := false, getCertificate := false, getNtlsCertificate := false)
  {
    cfg.it := cfg.it.(protocol := PROTOCOL_TLS, ntls := false);
    if ntls {
      if mode == PROTOCOL_MIXED {
        cfg.it := cfg.it.(minVersion := 0, maxVersion := 0);
      }
      cfg.it := cfg.it.(protocol := PROTOCOL_NTLS, ntls := true);
    }
    cfg.it := cfg.it.(getConfig := false, getCertificate := false, getNtlsCertificate := false);
  }

  // ----- the intermediates of both NTLS credentials -----

  /** A certificate with this encoding is in `all`. */
  ghost predicate Has(all: seq<nat>, der: nat -> Option<bytes>, e: Option<bytes>) {
    exists i :: 0 <= i < |all| && der(all[i]) == e
  }

  /** The certificates of `all` without repeated encodings, each at its first place. */
  ghost function Merged(all: seq<nat>, der: nat -> Option<bytes>): seq<nat> {
    if all == [] then []
    else
      var n := |all| - 1;
      Merged(all[..n], der) + if Has(all[..n], der, der(all[n])) then [] else [all[n]]
  }

  lemma HasOne(all: seq<nat>, c: nat, der: nat -> Option<bytes>, e: Option<bytes>)
    ensures Has(all + [c], der, e) <==> Has(all, der, e) || der(c) == e
  {
    if Has(all, der, e) {
      var i :| 0 <= i < |all| && der(all[i]) == e;
      assert (all + [c])[i] == all[i];
    }
    assert (all + [c])[|all|] == c;
  }

  lemma {:induction false} MergedHas(all: seq<nat>, der: nat -> Option<bytes>, e: Option<bytes>)
    ensures Has(Merged(all, der), der, e) <==> Has(all, der, e)
  {
    if all != [] {
      var n := |all| - 1;
      assert all[..n] + [all[n]] == all;
      MergedHas(all[..n], der, e);
      HasOne(all[..n], all[n], der, e);
      HasOne(Merged(all[..n], der), all[n], der, e);
      assert Merged(all[..n], der) + [] == Merged(all[..n], der);
    }
  }

  lemma {:induction false} MergedWithin(all: seq<nat>, der: nat -> Option<bytes>, c: nat)
    requires c in Merged(all, der)
    ensures c in all
  {
    if all != [] && c in Merged(all[..|all| - 1], der) {
      MergedWithin(all[..|all| - 1], der, c);
    }
  }

  lemma {:induction false} MergedDistinct(all: seq<nat>, der: nat -> Option<bytes>, i: nat, j: nat)
    requires i < j < |Merged(all, der)|
    ensures der(Merged(all, der)[i]) != der(Merged(all, der)[j])
  {
    var n := |all| - 1;
    var before := Merged(all[..n], der);
    if j < |before| {
      MergedDistinct(all[..n], der, i, j);
    } else {
      MergedHas(all[..n], der, der(all[n]));
      assert !Has(before, der, der(all[n]));
    }
  }

  /** Every encoding of the chains is kept, and kept once; nothing else is. */
  lemma MergedKeepsEachOnce(all: seq<nat>, der: nat -> Option<bytes>)
    ensures var r := Merged(all, der);
            (forall c :: c in r ==> c in all)
            && (forall i, j :: 0 <= i < j < |r| ==> der(r[i]) != der(r[j]))
            && (forall e :: Has(r, der, e) <==> Has(all, der, e))
  {
    var r := Merged(all, der);
    forall c | c in r ensures c in all {
      MergedWithin(all, der, c);
    }
    forall i, j | 0 <= i < j < |r| ensures der(r[i]) != der(r[j]) {
      MergedDistinct(all, der, i, j);
    }
    forall e ensures Has(r, der, e) <==> Has(all, der, e) {
      MergedHas(all, der, e);
    }
  }

  function Joined(chains: seq<seq<nat>>): seq<nat> {
    if chains == [] then [] else Joined(chains[..|chains| - 1]) + chains[|chains| - 1]
  }

  predicate AllEncode(all: seq<nat>, der: nat -> Option<bytes>) {
    forall i :: 0 <= i < |all| ==> der(all[i]).Some?
  }

  ghost predicate SeenIn(seen: set<bytes>, all: seq<nat>, der: nat -> Option<bytes>) {
    forall d :: d in seen <==> Has(all, der, Some(d))
  }

  /** One certificate after those of `before`. */
  method MergeOne(c: nat, d: bytes, der: nat -> Option<bytes>, seen: set<bytes>, combined: seq<nat>,
                  ghost before: seq<nat>)
    returns (out: seq<nat>, seenAfter: set<bytes>)
    requires der(c) == Some(d) && AllEncode(before, der) && combined == Merged(before, der) && SeenIn(seen, before, der)
    ensures AllEncode(before + [c], der) && out == Merged(before + [c], der) && SeenIn(seenAfter, before + [c], der)
  {
    assert (before + [c])[..|before|] == before;
    forall e ensures Has(before + [c], der, e) <==> Has(before, der, e) || der(c) == e {
      HasOne(before, c, der, e);
    }
    out, seenAfter := combined, seen;
    if d !in seen {
      seenAfter := seen + {d};
      out := out + [c];
    }
  }

  /** One chain after the certificates `before`. */
  method MergeChain(chain: seq<nat>, der: nat -> Option<bytes>, seen: set<bytes>, combined: seq<nat>,
                    ghost before: seq<nat>)
    returns (r: Result<seq<nat>>, seenAfter: set<bytes>)
    requires AllEncode(before, der) && combined == Merged(before, der) && SeenIn(seen, before, der)
    ensures r.Ok? <==> AllEncode(before + chain, der)
    ensures r.Ok? ==> r.value == Merged(before + chain, der) && SeenIn(seenAfter, before + chain, der)
  {
    var out := combined;
    seenAfter := seen;
    assert before + chain[..0] == before;
    for k := 0 to |chain|
      invariant AllEncode(before + chain[..k], der) && out == Merged(before + chain[..k], der)
      invariant SeenIn(seenAfter, before + chain[..k], der)
    {
      var d := der(chain[k]);
      if d.None? {
        assert (before + chain)[|before| + k] == chain[k];
        return Err, seenAfter;
      }
      hide Merged, SeenIn, AllEncode;
      out, seenAfter := MergeOne(chain[k], d.value, der, seenAfter, out, before + chain[..k]);
      assert before + chain[..k] + [chain[k]] == before + chain[..k + 1];
    }
    assert chain[..|chain|] == chain;
    r := Ok(out);
  }

  /** Joins the chains, dropping certificates whose encoding has been seen; fails if one has no encoding. */
  method MergeCertificateChains(chains: seq<seq<nat>>, der: nat -> Option<bytes>) returns (r: Result<seq<nat>>)
    ensures r.Ok? <==> AllEncode(Joined(chains), der)
    ensures r.Ok? ==> r.value == Merged(Joined(chains), der)
  {
    var combined, seen: set<bytes> := [], {};
    for i := 0 to |chains|
      invariant AllEncode(Joined(chains[..i]), der) && combined == Merged(Joined(chains[..i]), der)
      invariant SeenIn(seen, Joined(chains[..i]), der)
    {
      assert chains[..i + 1][..i] == chains[..i];
      assert Joined(chains[..i + 1]) == Joined(chains[..i]) + chains[i];
      hide Merged, SeenIn, AllEncode;
      var merged;
      merged, seen := MergeChain(chains[i], der, seen, combined, Joined(chains[..i]));
      if merged.Err? {
        JoinedPrefix(chains, i + 1, der);
        return Err;
      }
      combined := merged.value;
    }
    assert chains[..|chains|] == chains;
    return Ok(combined);
  }

  lemma {:induction false} JoinedPrefix(chains: seq<seq<nat>>, n: nat, der: nat -> Option<bytes>)
    requires n <= |chains|
    ensures AllEncode(Joined(chains), der) ==> AllEncode(Joined(chains[..n]), der)
  {
    if n < |chains| {
      var shorter := chains[..|chains| - 1];
      assert forall i :: 0 <= i < |Joined(shorter)| ==> Joined(chains)[i] == Joined(shorter)[i];
      JoinedPrefix(shorter, n, der);
      assert shorter[..n] == chains[..n];
    } else {
      assert chains[..n] == chains;
    }
  }
}
