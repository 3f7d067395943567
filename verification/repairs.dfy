/**
 * The three family-specific repair routines (`_fix_redis`,
 * `_fix_postgresql`, `_fix_keycloak`) and the removal of Keycloak's
 * `init-prepare-write-dirs` companions (`_fix_keycloak_init`).  Each
 * routine is a pure function from the old service record to the new one.
 */
module Repairs {
  import opened Wrappers
  import opened Strings
  import opened Secrets
  import opened Services

  /**
   * What a run reads besides the services: the secret store, the
   * configured `volume_root` (None when not configured), the keys of the
   * `overrides` configuration, and the base64 decoder.
   */
  datatype Context = Context(
    secrets: map<string, Secret>,
    volumeRoot: Option<string>,
    overrides: set<string>,
    decode: Decoder)

  /** `ctx.config.get("volume_root", "./data")`. */
  function VolumeRoot(ctx: Context): string {
    ctx.volumeRoot.GetOr("./data")
  }

  /** Python truthiness of an optional string: present and non-empty. */
  predicate IsSet(v: Option<string>) {
    v.Some? && v.value != ""
  }

  /**
   * The credential stored under `key` in the first candidate secret that
   * exists: nothing when no candidate exists or when that first secret is
   * an empty manifest (a later candidate is not tried then).
   */
  function Credential(ctx: Context, candidates: seq<string>, key: string): (r: Option<string>)
    ensures (forall i :: 0 <= i < |candidates| ==> candidates[i] !in ctx.secrets) ==> r.None?
    ensures forall i :: FirstPresent(ctx.secrets, candidates, i) ==>
              r == (var secret := ctx.secrets[candidates[i]];
                    if IsTruthy(secret) then SecretValue(secret, key, ctx.decode) else None)
  {
    match FindSecret(ctx.secrets, candidates)
    case None => None
    case Some((_, secret)) =>
      if IsTruthy(secret) then SecretValue(secret, key, ctx.decode) else None
  }

  // ---------------------------------------------------------------------------
  // Redis
  // ---------------------------------------------------------------------------

  const RedisImage := "redis:7-alpine"

  /**
   * The release prefix: every `-redis-master`, then every `-master`,
   * removed from the name.  It is never longer than the name, and a name
   * without `-master` is its own prefix.
   */
  function RedisPrefix(name: string): (r: string)
    ensures |r| <= |name|
    ensures !Contains(name, "-master") ==> r == name
  {
    var once := ReplaceAll(name, "-redis-master", "");
    assert !Contains(name, "-master") ==> once == name by {
      if Contains(name, "-redis-master") {
        MasterInRedisMaster(name);
      }
    }
    ReplaceAll(once, "-master", "")
  }

  /** `-master` ends `-redis-master`, so a name containing the latter contains the former. */
  lemma MasterInRedisMaster(name: string)
    requires Contains(name, "-redis-master")
    ensures Contains(name, "-master")
  {
    var i: nat :| OccursAt(name, "-redis-master", i);
    assert name[i + 6..i + 13] == name[i..i + 13][6..];
    ContainsAt(name, "-master", i + 6);
  }

  /**
   * Secret names tried for the Redis password, most specific first: the
   * prefix's `-redis` secret, the prefix itself, and the service's own name
   * as the last resort.
   */
  function RedisCandidates(name: string): (r: seq<string>)
    ensures |r| == 3 && r[0] == r[1] + "-redis" && r[1] == RedisPrefix(name) && r[2] == name
  {
    var prefix := RedisPrefix(name);
    [prefix + "-redis", prefix, name]
  }

  /** The `redis-password` value resolved for a Redis service. */
  function RedisPassword(name: string, ctx: Context): Option<string> {
    Credential(ctx, RedisCandidates(name), "redis-password")
  }

  /**
   * The stock-image replacement of a Bitnami Redis service: fixed image,
   * no entrypoint and no environment, one data volume under the volume
   * root, and `--requirepass` exactly when a non-empty password resolved.
   * Every other compose key is kept.
   */
  function FixRedis(name: string, svc: Service, ctx: Context): (r: Service)
    ensures r.image == Some(RedisImage)
    ensures r.entrypoint.None? && r.environment.None?
    ensures r.volumes == Some([VolumeRoot(ctx) + "/" + name + ":/data"])
    ensures IsSet(RedisPassword(name, ctx)) ==>
              r.command == Some(["redis-server", "--requirepass", RedisPassword(name, ctx).value])
    ensures !IsSet(RedisPassword(name, ctx)) ==> r.command == Some(["redis-server"])
    ensures r.rest == svc.rest
  {
    var password := RedisPassword(name, ctx);
    var command := if IsSet(password) then ["redis-server", "--requirepass", password.value] else ["redis-server"];
    svc.(image := Some(RedisImage),
         entrypoint := None,
         command := Some(command),
         volumes := Some([VolumeRoot(ctx) + "/" + name + ":/data"]),
         environment := None)
  }

  /** Only the untouched compose keys of the input survive into the Redis rewrite. */
  lemma FixRedisForgetsOldFields(name: string, svc: Service, other: Service, ctx: Context)
    requires svc.rest == other.rest
    ensures FixRedis(name, svc, ctx) == FixRedis(name, other, ctx)
  {
  }

  /** Running the Redis rewrite on its own output changes nothing. */
  lemma FixRedisIdempotent(name: string, svc: Service, ctx: Context)
    ensures FixRedis(name, FixRedis(name, svc, ctx), ctx) == FixRedis(name, svc, ctx)
  {
  }

  /**
   * When the `<prefix>-redis` secret exists and holds a non-empty
   * plaintext password, that password is used, whatever the less specific
   * candidates hold.
   */
  lemma RedisPrefersPrefixSecret(name: string, svc: Service, ctx: Context, password: string)
    requires RedisPrefix(name) + "-redis" in ctx.secrets
    requires var secret := ctx.secrets[RedisPrefix(name) + "-redis"];
             IsTruthy(secret) && "redis-password" in secret.stringData
             && secret.stringData["redis-password"] == Some(password)
    requires password != ""
    ensures FixRedis(name, svc, ctx).command == Some(["redis-server", "--requirepass", password])
  {
  }

  /**
   * For the chart's naming convention `<release>-redis-master` (or
   * `<release>-master`) with a dash-free release name, the prefix is the
   * release name and the candidates are `<release>-redis`, `<release>`,
   * then the service name.
   */
  lemma RedisPrefixOfConventionalName(release: string)
    requires '-' !in release
    ensures RedisPrefix(release + "-redis-master") == release
    ensures RedisPrefix(release + "-master") == release
    ensures RedisCandidates(release + "-redis-master") == [release + "-redis", release, release + "-redis-master"]
    ensures RedisCandidates(release + "-master") == [release + "-redis", release, release + "-master"]
  {
    RemoveTrailingPattern(release, "-redis-master");
    MissingCharNotContained(release, "-master", '-');
    ReplaceAllSkipsPrefix(release, "-master", "-redis-master", "");
    assert ReplaceAll("-master", "-redis-master", "") == "-master";
    RemoveTrailingPattern(release, "-master");
  }

  /** With none of the three candidate secrets present the server runs without a password. */
  lemma RedisWithoutSecretIsUnauthenticated(name: string, svc: Service, ctx: Context)
    requires forall c :: c in RedisCandidates(name) ==> c !in ctx.secrets
    ensures FixRedis(name, svc, ctx).command == Some(["redis-server"])
  {
  }

  // ---------------------------------------------------------------------------
  // PostgreSQL
  // ---------------------------------------------------------------------------

  /**
   * The PostgreSQL fix: exactly the data volume and the read-only secrets
   * volume, in that order; every other field is kept.
   */
  function FixPostgresql(name: string, svc: Service, ctx: Context): (r: Service)
    ensures r.volumes == Some([VolumeRoot(ctx) + "/" + name + ":/bitnami/postgresql",
                               "./secrets/" + name + ":/opt/bitnami/postgresql/secrets:ro"])
    ensures r.(volumes := svc.volumes) == svc
  {
    var data := VolumeRoot(ctx) + "/" + name + ":/bitnami/postgresql";
    var secrets := "./secrets/" + name + ":/opt/bitnami/postgresql/secrets:ro";
    svc.(volumes := Some([data, secrets]))
  }

  /** Running the PostgreSQL fix twice is the same as running it once. */
  lemma FixPostgresqlIdempotent(name: string, svc: Service, ctx: Context)
    ensures FixPostgresql(name, FixPostgresql(name, svc, ctx), ctx) == FixPostgresql(name, svc, ctx)
  {
  }

  // ---------------------------------------------------------------------------
  // Keycloak
  // ---------------------------------------------------------------------------

  const AdminPasswordVar := "KC_BOOTSTRAP_ADMIN_PASSWORD"
  const DbPasswordVar := "KC_DB_PASSWORD"

  /**
   * The release prefix: every `-keycloak`, then every `keycloak`, removed
   * from the name, then leading and trailing `-` trimmed; may be empty.
   * It is never longer than the name and never begins or ends with `-`.
   */
  function KeycloakPrefix(name: string): (r: string)
    ensures |r| <= |name|
    ensures r == [] || (r[0] != '-' && r[|r| - 1] != '-')
  {
    Strip(ReplaceAll(ReplaceAll(name, "-keycloak", ""), "keycloak", ""), '-')
  }

  /**
   * For `<release>-keycloak` with a dash-free release name not containing
   * `keycloak`, the prefix and the init-companion fragment are both the
   * release name.
   */
  lemma KeycloakPrefixOfConventionalName(release: string)
    requires '-' !in release && !Contains(release, "keycloak")
    ensures KeycloakPrefix(release + "-keycloak") == release
    ensures InitFragment(release + "-keycloak") == release
  {
    RemoveTrailingPattern(release, "-keycloak");
    ReleaseSurvivesPrefixCleanup(release);
  }

  lemma ReleaseSurvivesPrefixCleanup(release: string)
    requires '-' !in release && !Contains(release, "keycloak")
    ensures Strip(ReplaceAll(release, "keycloak", ""), '-') == release
  {
  }

  /**
   * The bare product name `keycloak` has an empty prefix, so the admin
   * password is looked up under `keycloak` only and the database password
   * under `keycloak-postgresql` only.
   */
  lemma BareKeycloakPrefix()
    ensures KeycloakPrefix("keycloak") == ""
    ensures AdminCandidates("keycloak") == ["keycloak", "keycloak"]
    ensures DbCandidates("keycloak") == ["keycloak-postgresql", "keycloak-postgresql"]
  {
  }

  /**
   * Secret names tried for the admin password: the prefix's `-keycloak`
   * secret when there is a prefix, then the service's own name, then the
   * shared `keycloak` secret.
   */
  function AdminCandidates(name: string): (r: seq<string>)
    ensures |r| == (if KeycloakPrefix(name) == "" then 2 else 3)
    ensures r[|r| - 2] == name && r[|r| - 1] == "keycloak"
    ensures KeycloakPrefix(name) != "" ==> r[0] == KeycloakPrefix(name) + "-keycloak"
  {
    var prefix := KeycloakPrefix(name);
    if prefix != "" then [prefix + "-keycloak", name, "keycloak"] else [name, "keycloak"]
  }

  /**
   * Secret names tried for the database password: the prefix's
   * `-postgresql` secret (or `keycloak-postgresql` without a prefix), then
   * `keycloak-postgresql`.
   */
  function DbCandidates(name: string): (r: seq<string>)
    ensures |r| == 2 && r[1] == "keycloak-postgresql"
    ensures r[0] == if KeycloakPrefix(name) == "" then "keycloak-postgresql" else KeycloakPrefix(name) + "-postgresql"
  {
    var prefix := KeycloakPrefix(name);
    [if prefix != "" then prefix + "-postgresql" else "keycloak-postgresql", "keycloak-postgresql"]
  }

  function AdminPassword(name: string, ctx: Context): Option<string> {
    Credential(ctx, AdminCandidates(name), "admin-password")
  }

  function DbPassword(name: string, ctx: Context): Option<string> {
    Credential(ctx, DbCandidates(name), "password")
  }

  /** The environment as a map; an absent environment reads as empty. */
  function EnvOf(svc: Service): map<string, string> {
    svc.environment.GetOr(map[])
  }

  /** `m` and `m'` agree on whether `k` is present and on its value. */
  predicate Keeps(m: map<string, string>, m': map<string, string>, k: string) {
    (k in m <==> k in m') && (k in m ==> m'[k] == m[k])
  }

  /**
   * `svc.setdefault("environment", {})[variable] = value`: the environment
   * exists afterwards, binds `variable` to `value`, and keeps every other
   * entry; nothing outside the environment changes.
   */
  function SetEnv(svc: Service, variable: string, value: string): (r: Service)
    ensures r.(environment := svc.environment) == svc
    ensures r.environment.Some?
    ensures variable in EnvOf(r) && EnvOf(r)[variable] == value
    ensures forall k :: k != variable ==> Keeps(EnvOf(svc), EnvOf(r), k)
  {
    svc.(environment := Some(EnvOf(svc)[variable := value]))
  }

  /**
   * Sets the admin and then the database password variable, each only when
   * its value is a non-empty string; keeps every other entry and creates
   * the environment only when it sets something.
   */
  function InjectPasswords(svc: Service, admin: Option<string>, db: Option<string>): (r: Service)
    ensures r.(environment := svc.environment) == svc
    ensures r.environment.None? <==> svc.environment.None? && !IsSet(admin) && !IsSet(db)
    ensures IsSet(admin) ==> AdminPasswordVar in EnvOf(r) && EnvOf(r)[AdminPasswordVar] == admin.value
    ensures !IsSet(admin) ==> Keeps(EnvOf(svc), EnvOf(r), AdminPasswordVar)
    ensures IsSet(db) ==> DbPasswordVar in EnvOf(r) && EnvOf(r)[DbPasswordVar] == db.value
    ensures !IsSet(db) ==> Keeps(EnvOf(svc), EnvOf(r), DbPasswordVar)
    ensures forall k :: k != AdminPasswordVar && k != DbPasswordVar ==> Keeps(EnvOf(svc), EnvOf(r), k)
  {
    var withAdmin := if IsSet(admin) then SetEnv(svc, AdminPasswordVar, admin.value) else svc;
    if IsSet(db) then SetEnv(withAdmin, DbPasswordVar, db.value) else withAdmin
  }

  /** Injecting the same passwords a second time changes nothing. */
  lemma InjectPasswordsIdempotent(svc: Service, admin: Option<string>, db: Option<string>)
    ensures InjectPasswords(InjectPasswords(svc, admin, db), admin, db) == InjectPasswords(svc, admin, db)
  {
    var once := InjectPasswords(svc, admin, db);
    var twice := InjectPasswords(once, admin, db);
    assert EnvOf(twice) == EnvOf(once);
  }

  /**
   * The Keycloak fix: the passwords resolved from the admin and database
   * secrets are injected into the environment; a variable whose password
   * does not resolve keeps whatever binding it had, and nothing else
   * changes.
   */
  function FixKeycloak(name: string, svc: Service, ctx: Context): (r: Service)
    ensures r.(environment := svc.environment) == svc
    ensures IsSet(AdminPassword(name, ctx)) ==>
              AdminPasswordVar in EnvOf(r) && EnvOf(r)[AdminPasswordVar] == AdminPassword(name, ctx).value
    ensures IsSet(DbPassword(name, ctx)) ==>
              DbPasswordVar in EnvOf(r) && EnvOf(r)[DbPasswordVar] == DbPassword(name, ctx).value
    ensures !IsSet(AdminPassword(name, ctx)) ==> Keeps(EnvOf(svc), EnvOf(r), AdminPasswordVar)
    ensures !IsSet(DbPassword(name, ctx)) ==> Keeps(EnvOf(svc), EnvOf(r), DbPasswordVar)
    ensures !IsSet(AdminPassword(name, ctx)) && !IsSet(DbPassword(name, ctx)) ==> r == svc
    ensures forall k :: k != AdminPasswordVar && k != DbPasswordVar ==> Keeps(EnvOf(svc), EnvOf(r), k)
  {
    InjectPasswords(svc, AdminPassword(name, ctx), DbPassword(name, ctx))
  }

  /** The Keycloak fix is idempotent. */
  lemma FixKeycloakIdempotent(name: string, svc: Service, ctx: Context)
    ensures FixKeycloak(name, FixKeycloak(name, svc, ctx), ctx) == FixKeycloak(name, svc, ctx)
  {
    InjectPasswordsIdempotent(svc, AdminPassword(name, ctx), DbPassword(name, ctx));
  }

  // ---------------------------------------------------------------------------
  // Keycloak init companions
  // ---------------------------------------------------------------------------

  const InitMarker := "init-prepare-write-dirs"

  /**
   * The part of a Keycloak service name a companion must contain: every
   * `-keycloak` removed.  It is never longer than the name, and a name
   * without `-keycloak` is its own fragment.
   */
  function InitFragment(name: string): (r: string)
    ensures |r| <= |name|
    ensures !Contains(name, "-keycloak") ==> r == name
  {
    ReplaceAll(name, "-keycloak", "")
  }

  /** `candidate` names an init companion of the Keycloak service `name`. */
  predicate IsInitCompanion(name: string, candidate: string) {
    Contains(candidate, InitFragment(name)) && Contains(candidate, InitMarker)
  }

  /**
   * The service set without the init companions of `name`, except those in
   * `spared`; every surviving entry keeps its record.  The source spares
   * nothing (`spared == {}`).
   */
  function RemoveKeycloakInit(name: string, services: map<string, Service>, spared: set<string>)
    : (r: map<string, Service>)
    ensures forall k :: k in r <==> k in services && !(IsInitCompanion(name, k) && k !in spared)
    ensures forall k :: k in r ==> r[k] == services[k]
  {
    map k | k in services && !(IsInitCompanion(name, k) && k !in spared) :: services[k]
  }

  /**
   * A companion named the usual way — the name's fragment, anything, then
   * the marker — is removed unless spared.
   */
  lemma ConventionalCompanionRemoved(name: string, infix: string, services: map<string, Service>,
                                     spared: set<string>)
    requires InitFragment(name) + infix + InitMarker !in spared
    ensures IsInitCompanion(name, InitFragment(name) + infix + InitMarker)
    ensures InitFragment(name) + infix + InitMarker !in RemoveKeycloakInit(name, services, spared)
  {
    var f := InitFragment(name);
    var k := f + infix + InitMarker;
    ContainsAt(k, f, 0);
    ContainsAt(k, InitMarker, |f| + |infix|);
  }

  /** A service whose name lacks the marker is never removed. */
  lemma UnmarkedNeverRemoved(name: string, services: map<string, Service>, spared: set<string>, k: string)
    requires k in services && !Contains(k, InitMarker)
    ensures k in RemoveKeycloakInit(name, services, spared)
  {
  }

  // ---------------------------------------------------------------------------
  // Dispatch
  // ---------------------------------------------------------------------------

  /** The record a service ends up with when its own turn in the transform rewrites it. */
  function Repair(name: string, svc: Service, ctx: Context): Service {
    match Classify(svc)
    case Redis => FixRedis(name, svc, ctx)
    case Postgresql => FixPostgresql(name, svc, ctx)
    case Keycloak => FixKeycloak(name, svc, ctx)
    case Unmatched => svc
  }
}
