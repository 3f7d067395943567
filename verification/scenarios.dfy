/**
 * End-to-end runs of the transform on Redis, PostgreSQL and Keycloak
 * deployments as the Bitnami charts name them, stated for every release name and image tag of the assumed shape, and
 * the two inputs on which the source departs from its evident intent.
 */
module Scenarios {
  import opened Wrappers
  import opened Strings
  import opened Secrets
  import opened Services
  import opened Repairs
  import opened Workarounds

  /** A service that only names its image. */
  function Bare(image: string): Service {
    Service(Some(image), None, None, None, None, map[])
  }

  /** A secret manifest with one plaintext entry. */
  function Plain(key: string, value: string): Secret {
    Secret({"stringData"}, map[key := Some(value)], map[])
  }

  // ---------------------------------------------------------------------------
  // Image classification
  // ---------------------------------------------------------------------------

  /** The reference `bitnami/<family>:<tag>`. */
  function BitnamiImage(family: string, tag: string): string {
    "bitnami/" + family + ":" + tag
  }

  /** A Bitnami reference names the marker and its family. */
  lemma BitnamiImageNames(family: string, tag: string)
    ensures Contains(BitnamiImage(family, tag), BitnamiMarker)
    ensures Contains(BitnamiImage(family, tag), family)
  {
    var image := BitnamiImage(family, tag);
    ContainsInfix("", "bitnami", "/" + family + ":" + tag);
    assert "" + "bitnami" + ("/" + family + ":" + tag) == image;
    ContainsInfix("bitnami/", family, ":" + tag);
    assert "bitnami/" + family + (":" + tag) == image;
  }

  /** A Bitnami reference does not name a fragment with a character found neither in its family nor in its tag. */
  lemma BitnamiImageLacks(family: string, tag: string, sub: string, c: char)
    requires c in sub && c !in family && c !in tag && c !in "bitnami/:"
    ensures !Contains(BitnamiImage(family, tag), sub)
  {
    MissingCharNotContained(BitnamiImage(family, tag), sub, c);
  }

  lemma RedisImageClassified(svc: Service, tag: string)
    requires svc.image == Some(BitnamiImage("redis", tag))
    ensures Classify(svc) == Redis
  {
    BitnamiImageNames("redis", tag);
  }

  /** A PostgreSQL reference is not taken for Redis when its tag has no `d`. */
  lemma PostgresqlImageClassified(svc: Service, tag: string)
    requires svc.image == Some(BitnamiImage("postgresql", tag)) && 'd' !in tag
    ensures Classify(svc) == Postgresql
  {
    BitnamiImageNames("postgresql", tag);
    BitnamiImageLacks("postgresql", tag, "redis", 'd');
  }

  /** A Keycloak reference is taken for neither Redis nor PostgreSQL when its tag has no `d` and no `p`. */
  lemma KeycloakImageClassified(svc: Service, tag: string)
    requires svc.image == Some(BitnamiImage("keycloak", tag)) && 'd' !in tag && 'p' !in tag
    ensures Classify(svc) == Keycloak
  {
    BitnamiImageNames("keycloak", tag);
    BitnamiImageLacks("keycloak", tag, "redis", 'd');
    BitnamiImageLacks("keycloak", tag, "postgresql", 'p');
  }

  // ---------------------------------------------------------------------------
  // Redis
  // ---------------------------------------------------------------------------

  /**
   * Given secrets `<release>-redis` and `<release>`, the service
   * `<release>-redis-master` takes its password from `<release>-redis`.
   */
  lemma MostSpecificSecretWins(release: string, specific: string, generic: string, decode: Decoder)
    requires '-' !in release
    ensures var secrets := map[release + "-redis" := Plain("redis-password", specific),
                               release := Plain("redis-password", generic)];
            RedisPassword(release + "-redis-master", Context(secrets, None, {}, decode)) == Some(specific)
  {
    RedisPrefixOfConventionalName(release);
    var secrets := map[release + "-redis" := Plain("redis-password", specific),
                       release := Plain("redis-password", generic)];
    assert FirstPresent(secrets, RedisCandidates(release + "-redis-master"), 0);
  }

  /** The `<release>-redis` secret alone supplies the password of `<release>-redis-master`. */
  lemma RedisSecretResolves(release: string, password: string, decode: Decoder)
    requires '-' !in release
    ensures var ctx := Context(map[release + "-redis" := Plain("redis-password", password)], None, {}, decode);
            RedisPassword(release + "-redis-master", ctx) == Some(password)
  {
    RedisPrefixOfConventionalName(release);
    var secrets := map[release + "-redis" := Plain("redis-password", password)];
    assert FirstPresent(secrets, RedisCandidates(release + "-redis-master"), 0);
  }

  /**
   * A Bitnami Redis master `<release>-redis-master` with the secret
   * `<release>-redis` holding a non-empty password becomes a stock Redis
   * server protected by that password, with its data under `./data`.
   */
  lemma RedisWithSecret(release: string, tag: string, password: string, decode: Decoder)
    requires '-' !in release && password != ""
    ensures var name := release + "-redis-master";
            var ctx := Context(map[release + "-redis" := Plain("redis-password", password)], None, {}, decode);
            Transform(AsWritten, ctx, map[name := Bare(BitnamiImage("redis", tag))], [name])
              == Success(State(map[name := Service(Some("redis:7-alpine"), None,
                                                   Some(["redis-server", "--requirepass", password]),
                                                   Some(["./data" + "/" + name + ":/data"]),
                                                   None, map[])],
                               [Dispatch(name, Redis)]))
  {
    var name := release + "-redis-master";
    var ctx := Context(map[release + "-redis" := Plain("redis-password", password)], None, {}, decode);
    var svc := Bare(BitnamiImage("redis", tag));
    RedisImageClassified(svc, tag);
    RedisSecretResolves(release, password, decode);
    RunOne(AsWritten, ctx, name, State(map[name := svc], []));
    var fixed := FixRedis(name, svc, ctx);
    assert map[name := svc][name := fixed] == map[name := fixed];
    assert [] + [Dispatch(name, Redis)] == [Dispatch(name, Redis)];
  }

  /** The same service with no secret at all runs without a password. */
  lemma RedisWithoutSecret(release: string, tag: string, decode: Decoder)
    ensures var name := release + "-redis-master";
            var ctx := Context(map[], None, {}, decode);
            var r := Transform(AsWritten, ctx, map[name := Bare(BitnamiImage("redis", tag))], [name]);
            r.Success? && name in r.value.services && r.value.services[name].command == Some(["redis-server"])
  {
    var name := release + "-redis-master";
    var ctx := Context(map[], None, {}, decode);
    var svc := Bare(BitnamiImage("redis", tag));
    RedisImageClassified(svc, tag);
    RunOne(AsWritten, ctx, name, State(map[name := svc], []));
  }

  // ---------------------------------------------------------------------------
  // PostgreSQL
  // ---------------------------------------------------------------------------

  /** A Bitnami PostgreSQL service gets exactly its two volumes, in order. */
  lemma PostgresqlVolumes(name: string, tag: string, decode: Decoder)
    requires 'd' !in tag
    ensures var ctx := Context(map[], None, {}, decode);
            var svc := Bare(BitnamiImage("postgresql", tag));
            Transform(AsWritten, ctx, map[name := svc], [name])
              == Success(State(map[name := svc.(volumes := Some([
                                   "./data" + "/" + name + ":/bitnami/postgresql",
                                   "./secrets/" + name + ":/opt/bitnami/postgresql/secrets:ro"]))],
                               [Dispatch(name, Postgresql)]))
  {
    var ctx := Context(map[], None, {}, decode);
    var svc := Bare(BitnamiImage("postgresql", tag));
    PostgresqlImageClassified(svc, tag);
    RunOne(AsWritten, ctx, name, State(map[name := svc], []));
    var fixed := FixPostgresql(name, svc, ctx);
    assert fixed == svc.(volumes := Some(["./data" + "/" + name + ":/bitnami/postgresql",
                                          "./secrets/" + name + ":/opt/bitnami/postgresql/secrets:ro"]));
    assert map[name := svc][name := fixed] == map[name := fixed];
    assert [] + [Dispatch(name, Postgresql)] == [Dispatch(name, Postgresql)];
  }

  // ---------------------------------------------------------------------------
  // Keycloak
  // ---------------------------------------------------------------------------

  /** The release names the Keycloak scenarios are stated for. */
  predicate PlainRelease(release: string) {
    release != "" && '-' !in release && 'w' !in release && !Contains(release, "keycloak")
  }

  function KeycloakName(release: string): string {
    release + "-keycloak"
  }

  function InitName(release: string): string {
    release + "-" + InitMarker
  }

  /** The admin secret `<release>-keycloak` and the database secret `keycloak-postgresql`. */
  function KeycloakContext(release: string, adminPw: string, dbPw: string, overrides: set<string>,
                           decode: Decoder): Context {
    Context(map[KeycloakName(release) := Plain("admin-password", adminPw),
                "keycloak-postgresql" := Plain("password", dbPw)],
            None, overrides, decode)
  }

  /** The Keycloak service and its init companion. */
  function KeycloakServices(release: string, tag: string, init: Service): map<string, Service> {
    map[KeycloakName(release) := Bare(BitnamiImage("keycloak", tag)), InitName(release) := init]
  }

  /** The Keycloak service once both passwords are injected. */
  function RepairedKeycloak(tag: string, adminPw: string, dbPw: string): Service {
    Bare(BitnamiImage("keycloak", tag)).(environment := Some(map[AdminPasswordVar := adminPw, DbPasswordVar := dbPw]))
  }

  lemma CancelSuffix(a: string, b: string, c: string)
    requires a + c == b + c
    ensures a == b
  {
    assert a == (a + c)[..|a|];
    assert b == (b + c)[..|b|];
  }

  /** The candidate lists for `<release>-keycloak`. */
  lemma KeycloakScenarioCandidates(release: string)
    requires PlainRelease(release)
    ensures AdminCandidates(KeycloakName(release)) == [KeycloakName(release), KeycloakName(release), "keycloak"]
    ensures DbCandidates(KeycloakName(release)) == [release + "-postgresql", "keycloak-postgresql"]
  {
    KeycloakPrefixOfConventionalName(release);
  }

  /** No secret of the scenario is named `<release>-postgresql`. */
  lemma DbSecretNameFree(release: string)
    requires PlainRelease(release)
    ensures release + "-postgresql" != KeycloakName(release)
    ensures release + "-postgresql" != "keycloak-postgresql"
  {
    assert |release + "-postgresql"| != |KeycloakName(release)|;
    assert "keycloak-postgresql" == "keycloak" + "-postgresql";
    ContainsAt("keycloak", "keycloak", 0);
    if release + "-postgresql" == "keycloak-postgresql" {
      CancelSuffix(release, "keycloak", "-postgresql");
      assert false;
    }
  }

  /** `<release>-init-prepare-write-dirs` is the companion of `<release>-keycloak`. */
  lemma KeycloakScenarioCompanion(release: string)
    requires PlainRelease(release)
    ensures IsInitCompanion(KeycloakName(release), InitName(release))
  {
    KeycloakPrefixOfConventionalName(release);
    assert InitName(release) == InitFragment(KeycloakName(release)) + "-" + InitMarker;
    ConventionalCompanionRemoved(KeycloakName(release), "-", map[], {});
  }

  /** `<release>-keycloak` is not a companion of itself, nor its companion's name. */
  lemma KeycloakNotOwnCompanion(release: string)
    requires PlainRelease(release)
    ensures !IsInitCompanion(KeycloakName(release), KeycloakName(release))
    ensures InitName(release) != KeycloakName(release)
  {
    var kc := KeycloakName(release);
    assert 'w' !in "-keycloak";
    assert 'w' !in kc;
    MissingCharNotContained(kc, InitMarker, 'w');
    assert |InitName(release)| != |kc|;
  }

  /** The admin secret and the database secret have different names. */
  lemma KeycloakNameNotDbSecret(release: string)
    ensures KeycloakName(release) != "keycloak-postgresql"
  {
    var kc := KeycloakName(release);
    assert kc[|kc| - 1] == 'k';
  }

  /** A plaintext secret found first among the candidates supplies the credential. */
  lemma CredentialOfPlain(ctx: Context, candidates: seq<string>, i: int, key: string, value: string)
    requires FirstPresent(ctx.secrets, candidates, i)
    requires ctx.secrets[candidates[i]] == Plain(key, value)
    ensures Credential(ctx, candidates, key) == Some(value)
  {
    assert HasValue(Plain(key, value).stringData, key);
  }

  lemma KeycloakAdminResolves(release: string, adminPw: string, dbPw: string, overrides: set<string>,
                              decode: Decoder)
    requires PlainRelease(release)
    ensures AdminPassword(KeycloakName(release), KeycloakContext(release, adminPw, dbPw, overrides, decode))
              == Some(adminPw)
  {
    KeycloakScenarioCandidates(release);
    KeycloakNameNotDbSecret(release);
    var ctx := KeycloakContext(release, adminPw, dbPw, overrides, decode);
    assert ctx.secrets[KeycloakName(release)] == Plain("admin-password", adminPw);
    CredentialOfPlain(ctx, AdminCandidates(KeycloakName(release)), 0, "admin-password", adminPw);
  }

  lemma KeycloakDbResolves(release: string, adminPw: string, dbPw: string, overrides: set<string>,
                           decode: Decoder)
    requires PlainRelease(release)
    ensures DbPassword(KeycloakName(release), KeycloakContext(release, adminPw, dbPw, overrides, decode))
              == Some(dbPw)
  {
    KeycloakScenarioCandidates(release);
    DbSecretNameFree(release);
    KeycloakNameNotDbSecret(release);
    var ctx := KeycloakContext(release, adminPw, dbPw, overrides, decode);
    assert release + "-postgresql" !in ctx.secrets;
    CredentialOfPlain(ctx, DbCandidates(KeycloakName(release)), 1, "password", dbPw);
  }

  /** Both passwords resolve, so the repaired record carries them both. */
  lemma KeycloakRecord(release: string, tag: string, adminPw: string, dbPw: string, overrides: set<string>,
                       decode: Decoder)
    requires PlainRelease(release) && adminPw != "" && dbPw != ""
    ensures FixKeycloak(KeycloakName(release), Bare(BitnamiImage("keycloak", tag)),
                        KeycloakContext(release, adminPw, dbPw, overrides, decode))
              == RepairedKeycloak(tag, adminPw, dbPw)
  {
    KeycloakAdminResolves(release, adminPw, dbPw, overrides, decode);
    KeycloakDbResolves(release, adminPw, dbPw, overrides, decode);
    assert map[][AdminPasswordVar := adminPw][DbPasswordVar := dbPw]
        == map[AdminPasswordVar := adminPw, DbPasswordVar := dbPw];
  }

  /** A map that agrees with `s` except at `k`, where it holds `v`, is `s[k := v]`. */
  lemma MapUpdateOf<K, V>(r: map<K, V>, s: map<K, V>, k: K, v: V)
    requires r.Keys == s.Keys && k in r && r[k] == v
    requires forall j :: j in r && j != k ==> r[j] == s[j]
    ensures r == s[k := v]
  {
  }

  // Applying the Keycloak fix to a service and its one companion.  The
  // spared case is split into small facts because the solver struggles to
  // combine them over the comprehension that removes companions.

  lemma SparedPairKeys(mode: Mode, ctx: Context, kc: string, init: string, services: map<string, Service>,
                          fixed: Service)
    requires services.Keys == {kc, init} && kc != init
    requires Classify(services[kc]) == Keycloak
    requires IsInitCompanion(kc, init) && !IsInitCompanion(kc, kc)
    requires Repair(kc, services[kc], ctx) == fixed
    requires init in Spared(mode, ctx)
    ensures Apply(mode, ctx, kc, Keycloak, services).Keys == services.Keys
  {
    var r := Apply(mode, ctx, kc, Keycloak, services);
    assert kc in r && init in r;
  }

  lemma SparedPairCompanion(mode: Mode, ctx: Context, kc: string, init: string, services: map<string, Service>,
                          fixed: Service)
    requires services.Keys == {kc, init} && kc != init
    requires Classify(services[kc]) == Keycloak
    requires IsInitCompanion(kc, init) && !IsInitCompanion(kc, kc)
    requires Repair(kc, services[kc], ctx) == fixed
    requires init in Spared(mode, ctx)
    ensures init in Apply(mode, ctx, kc, Keycloak, services)
    ensures Apply(mode, ctx, kc, Keycloak, services)[init] == services[init]
  {
  }

  lemma PairRepaired(mode: Mode, ctx: Context, kc: string, init: string, services: map<string, Service>,
                          fixed: Service)
    requires services.Keys == {kc, init} && kc != init
    requires Classify(services[kc]) == Keycloak
    requires IsInitCompanion(kc, init) && !IsInitCompanion(kc, kc)
    requires Repair(kc, services[kc], ctx) == fixed
    ensures kc in Apply(mode, ctx, kc, Keycloak, services)
    ensures Apply(mode, ctx, kc, Keycloak, services)[kc] == fixed
  {
  }

  /** With the companion spared, only the Keycloak record changes. */
  lemma KeycloakPairSpared(mode: Mode, ctx: Context, kc: string, init: string, services: map<string, Service>,
                          fixed: Service)
    requires services.Keys == {kc, init} && kc != init
    requires Classify(services[kc]) == Keycloak
    requires IsInitCompanion(kc, init) && !IsInitCompanion(kc, kc)
    requires Repair(kc, services[kc], ctx) == fixed
    requires init in Spared(mode, ctx)
    ensures Apply(mode, ctx, kc, Keycloak, services) == services[kc := fixed]
  {
    SparedPairKeys(mode, ctx, kc, init, services, fixed);
    SparedPairCompanion(mode, ctx, kc, init, services, fixed);
    PairRepaired(mode, ctx, kc, init, services, fixed);
    MapUpdateOf(Apply(mode, ctx, kc, Keycloak, services), services, kc, fixed);
  }

  lemma RemovedPairKeys(mode: Mode, ctx: Context, kc: string, init: string, services: map<string, Service>,
                          fixed: Service)
    requires services.Keys == {kc, init} && kc != init
    requires Classify(services[kc]) == Keycloak
    requires IsInitCompanion(kc, init) && !IsInitCompanion(kc, kc)
    requires Repair(kc, services[kc], ctx) == fixed
    requires init !in Spared(mode, ctx)
    ensures Apply(mode, ctx, kc, Keycloak, services).Keys == {kc}
  {
    var r := Apply(mode, ctx, kc, Keycloak, services);
    assert kc in r && init !in r;
  }

  /** A map with the one key `k`, holding `v`, is `map[k := v]`. */
  lemma SingletonMap<K, V>(r: map<K, V>, k: K, v: V)
    requires r.Keys == {k} && r[k] == v
    ensures r == map[k := v]
  {
  }

  /** Otherwise the companion goes and the repaired Keycloak record is all that is left. */
  lemma KeycloakPairRemoved(mode: Mode, ctx: Context, kc: string, init: string, services: map<string, Service>,
                          fixed: Service)
    requires services.Keys == {kc, init} && kc != init
    requires Classify(services[kc]) == Keycloak
    requires IsInitCompanion(kc, init) && !IsInitCompanion(kc, kc)
    requires Repair(kc, services[kc], ctx) == fixed
    requires init !in Spared(mode, ctx)
    ensures Apply(mode, ctx, kc, Keycloak, services) == map[kc := fixed]
  {
    RemovedPairKeys(mode, ctx, kc, init, services, fixed);
    PairRepaired(mode, ctx, kc, init, services, fixed);
    SingletonMap(Apply(mode, ctx, kc, Keycloak, services), kc, fixed);
  }

  /** Applying the Keycloak fix in the scenario. */
  lemma KeycloakApply(mode: Mode, release: string, tag: string, adminPw: string, dbPw: string,
                      overrides: set<string>, decode: Decoder, services: map<string, Service>)
    requires PlainRelease(release) && 'd' !in tag && 'p' !in tag && adminPw != "" && dbPw != ""
    requires services.Keys == {KeycloakName(release), InitName(release)}
    requires services[KeycloakName(release)] == Bare(BitnamiImage("keycloak", tag))
    ensures var ctx := KeycloakContext(release, adminPw, dbPw, overrides, decode);
            var kc := KeycloakName(release);
            Classify(services[kc]) == Keycloak
            && Apply(mode, ctx, kc, Keycloak, services)
               == if InitName(release) in Spared(mode, ctx)
                  then services[kc := RepairedKeycloak(tag, adminPw, dbPw)]
                  else map[kc := RepairedKeycloak(tag, adminPw, dbPw)]
  {
    var ctx := KeycloakContext(release, adminPw, dbPw, overrides, decode);
    var kc := KeycloakName(release);
    KeycloakImageClassified(services[kc], tag);
    KeycloakScenarioCompanion(release);
    KeycloakNotOwnCompanion(release);
    KeycloakRecord(release, tag, adminPw, dbPw, overrides, decode);
    if InitName(release) in Spared(mode, ctx) {
      KeycloakPairSpared(mode, ctx, kc, InitName(release), services, RepairedKeycloak(tag, adminPw, dbPw));
    } else {
      KeycloakPairRemoved(mode, ctx, kc, InitName(release), services, RepairedKeycloak(tag, adminPw, dbPw));
    }
  }

  /** The first dispatch of a run: the service is fixed and recorded. */
  lemma DispatchFromStart(mode: Mode, ctx: Context, name: string, services: map<string, Service>,
                          family: Family, result: map<string, Service>)
    requires name !in ctx.overrides && name in services
    requires Classify(services[name]) == family && family != Unmatched
    requires Apply(mode, ctx, name, family, services) == result
    ensures Step(mode, ctx, name, State(services, [])) == Success(State(result, [Dispatch(name, family)]))
  {
    assert [] + [Dispatch(name, family)] == [Dispatch(name, family)];
  }

  /** The step that dispatches the Keycloak service from the initial state. */
  lemma KeycloakDispatch(mode: Mode, release: string, tag: string, adminPw: string, dbPw: string,
                         overrides: set<string>, decode: Decoder, services: map<string, Service>)
    requires PlainRelease(release) && 'd' !in tag && 'p' !in tag && adminPw != "" && dbPw != ""
    requires KeycloakName(release) !in overrides
    requires services.Keys == {KeycloakName(release), InitName(release)}
    requires services[KeycloakName(release)] == Bare(BitnamiImage("keycloak", tag))
    ensures var ctx := KeycloakContext(release, adminPw, dbPw, overrides, decode);
            var kc := KeycloakName(release);
            Step(mode, ctx, kc, State(services, [])) == Success(State(
              if InitName(release) in Spared(mode, ctx)
              then services[kc := RepairedKeycloak(tag, adminPw, dbPw)]
              else map[kc := RepairedKeycloak(tag, adminPw, dbPw)],
              [Dispatch(kc, Keycloak)]))
  {
    var ctx := KeycloakContext(release, adminPw, dbPw, overrides, decode);
    var kc := KeycloakName(release);
    KeycloakApply(mode, release, tag, adminPw, dbPw, overrides, decode, services);
    DispatchFromStart(mode, ctx, kc, services, Keycloak,
                      if InitName(release) in Spared(mode, ctx)
                      then services[kc := RepairedKeycloak(tag, adminPw, dbPw)]
                      else map[kc := RepairedKeycloak(tag, adminPw, dbPw)]);
  }

  /**
   * The identity-provider scenario with the companion listed first: the
   * Keycloak service gets both passwords and the companion is removed.
   */
  lemma KeycloakCompanionFirst(mode: Mode, release: string, tag: string, adminPw: string, dbPw: string,
                               init: Service, decode: Decoder)
    requires PlainRelease(release) && 'd' !in tag && 'p' !in tag && adminPw != "" && dbPw != ""
    requires Classify(init) == Unmatched
    ensures var ctx := KeycloakContext(release, adminPw, dbPw, {}, decode);
            var kc := KeycloakName(release);
            Transform(mode, ctx, KeycloakServices(release, tag, init), [InitName(release), kc])
              == Success(State(map[kc := RepairedKeycloak(tag, adminPw, dbPw)], [Dispatch(kc, Keycloak)]))
  {
    var ctx := KeycloakContext(release, adminPw, dbPw, {}, decode);
    var services := KeycloakServices(release, tag, init);
    KeycloakScenarioCompanion(release);
    KeycloakNotOwnCompanion(release);
    RunTwo(mode, ctx, InitName(release), KeycloakName(release), State(services, []));
    KeycloakDispatch(mode, release, tag, adminPw, dbPw, {}, decode, services);
  }

  /**
   * Finding, as written: with the companion listed after the Keycloak
   * service, the source deletes it and then looks it up, raising KeyError.
   */
  lemma CompanionAfterMainFails(release: string, tag: string, adminPw: string, dbPw: string,
                                init: Service, decode: Decoder)
    requires PlainRelease(release) && 'd' !in tag && 'p' !in tag && adminPw != "" && dbPw != ""
    ensures var ctx := KeycloakContext(release, adminPw, dbPw, {}, decode);
            var kc := KeycloakName(release);
            Transform(AsWritten, ctx, KeycloakServices(release, tag, init), [kc, InitName(release)])
              == Failure(MissingService(InitName(release), map[kc := RepairedKeycloak(tag, adminPw, dbPw)],
                                    [Dispatch(kc, Keycloak)]))
  {
    var ctx := KeycloakContext(release, adminPw, dbPw, {}, decode);
    var services := KeycloakServices(release, tag, init);
    KeycloakScenarioCompanion(release);
    KeycloakNotOwnCompanion(release);
    RunTwo(AsWritten, ctx, KeycloakName(release), InitName(release), State(services, []));
    KeycloakDispatch(AsWritten, release, tag, adminPw, dbPw, {}, decode, services);
  }

  /** Corrected: the guarded run skips the vanished companion and ends as the other order does. */
  lemma CompanionAfterMainGuarded(release: string, tag: string, adminPw: string, dbPw: string,
                                  init: Service, decode: Decoder)
    requires PlainRelease(release) && 'd' !in tag && 'p' !in tag && adminPw != "" && dbPw != ""
    ensures var ctx := KeycloakContext(release, adminPw, dbPw, {}, decode);
            var kc := KeycloakName(release);
            Transform(Guarded, ctx, KeycloakServices(release, tag, init), [kc, InitName(release)])
              == Success(State(map[kc := RepairedKeycloak(tag, adminPw, dbPw)], [Dispatch(kc, Keycloak)]))
  {
    var ctx := KeycloakContext(release, adminPw, dbPw, {}, decode);
    var services := KeycloakServices(release, tag, init);
    KeycloakScenarioCompanion(release);
    KeycloakNotOwnCompanion(release);
    RunTwo(Guarded, ctx, KeycloakName(release), InitName(release), State(services, []));
    KeycloakDispatch(Guarded, release, tag, adminPw, dbPw, {}, decode, services);
  }

  /**
   * Finding, as written: a companion the user overrode is still removed,
   * although the run never dispatches it.
   */
  lemma OverriddenCompanionRemoved(release: string, tag: string, adminPw: string, dbPw: string,
                                   init: Service, decode: Decoder)
    requires PlainRelease(release) && 'd' !in tag && 'p' !in tag && adminPw != "" && dbPw != ""
    ensures var ctx := KeycloakContext(release, adminPw, dbPw, {InitName(release)}, decode);
            var r := Transform(AsWritten, ctx, KeycloakServices(release, tag, init),
                               [KeycloakName(release), InitName(release)]);
            r.Success? && InitName(release) in ctx.overrides && InitName(release) !in r.value.services
  {
    var ctx := KeycloakContext(release, adminPw, dbPw, {InitName(release)}, decode);
    var services := KeycloakServices(release, tag, init);
    KeycloakScenarioCompanion(release);
    KeycloakNotOwnCompanion(release);
    RunTwo(AsWritten, ctx, KeycloakName(release), InitName(release), State(services, []));
    KeycloakDispatch(AsWritten, release, tag, adminPw, dbPw, {InitName(release)}, decode, services);
  }

  /** Corrected: the guarded run keeps the overridden companion exactly as it was. */
  lemma OverriddenCompanionKept(release: string, tag: string, adminPw: string, dbPw: string,
                                init: Service, decode: Decoder)
    requires PlainRelease(release) && 'd' !in tag && 'p' !in tag && adminPw != "" && dbPw != ""
    ensures var ctx := KeycloakContext(release, adminPw, dbPw, {InitName(release)}, decode);
            var kc := KeycloakName(release);
            Transform(Guarded, ctx, KeycloakServices(release, tag, init), [kc, InitName(release)])
              == Success(State(KeycloakServices(release, tag, init)[kc := RepairedKeycloak(tag, adminPw, dbPw)],
                               [Dispatch(kc, Keycloak)]))
  {
    var ctx := KeycloakContext(release, adminPw, dbPw, {InitName(release)}, decode);
    var services := KeycloakServices(release, tag, init);
    KeycloakScenarioCompanion(release);
    KeycloakNotOwnCompanion(release);
    RunTwo(Guarded, ctx, KeycloakName(release), InitName(release), State(services, []));
    KeycloakDispatch(Guarded, release, tag, adminPw, dbPw, {InitName(release)}, decode, services);
  }
}
