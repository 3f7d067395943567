# Bitnami workarounds — a Dafny model

This project models the `bitnami` transform of the h2c Helm-to-Compose
converter (`bitnami.py`). The transform walks the compose service set and
finds services built from Bitnami images of three families:

- **Redis:** the service is replaced by a stock `redis:7-alpine` server. Its
  password comes from a Kubernetes secret, and its data goes in a single
  volume.
- **PostgreSQL:** the service gets exactly two volumes: one for data and one
  read-only volume for secrets.
- **Keycloak:** the admin and database passwords are injected from secrets
  into the environment. The `init-prepare-write-dirs` companion services are
  deleted.

Services named in the user's `overrides` configuration are skipped.

Everything is pure: a service is an immutable record and the transform is a
function from the service set to a new one.

## Modules

- `wrappers.dfy` (`Wrappers`): `Option` and `Result`.
- `strings.dfy` (`Strings`): the Python string operations the source uses.
  - Substring test `in` (`Contains`).
  - `str.replace` with every non-overlapping occurrence replaced, scanning
    left to right (`ReplaceAll`).
  - `str.strip(c)` (`Strip`).
- `secrets.dfy` (`Secrets`): secret manifests, `_secret_value`
  (`SecretValue`) and `_find_secret` (`FindSecret`).
- `services.dfy` (`Services`): service records, `_is_bitnami_image`
  (`IsBitnamiImage`), and the redis → postgresql → keycloak dispatch order
  (`Classify`).
- `repairs.dfy` (`Repairs`): the run context and credential lookup, plus the
  four routines:
  - `_fix_redis` (`FixRedis`);
  - `_fix_postgresql` (`FixPostgresql`);
  - `_fix_keycloak` (`FixKeycloak`, built on `InjectPasswords`);
  - `_fix_keycloak_init` (`RemoveKeycloakInit`).
- `transform.dfy` (`Workarounds`): `BitnamiWorkarounds.transform` as a left
  fold (`Run`/`Step`) over a snapshot of the service names.
  - It has a run invariant and the whole-run properties built on it.
  - It has two modes:
    - `AsWritten` is the source's behaviour.
    - `Guarded` is the corrected behaviour. It skips names deleted earlier
      in the run and never deletes an overridden service.
- `scenarios.dfy` (`Scenarios`): end-to-end runs on Redis, PostgreSQL and
  Keycloak deployments named the way the Bitnami charts name them, and the
  counterexamples for the two findings.
  - The runs are stated for every release name and image tag of the assumed
    shape, rather than for one literal.

## Modelling decisions

- **Secrets.** A secret manifest keeps three things:
  - its set of top-level keys, since `if secret:` tests only whether the
    manifest is empty;
  - its `stringData` and `data` sub-mappings, as they are after `or {}`.
  A `None` value in a sub-mapping is a YAML null.
- **Decoding.** Base64 decoding followed by UTF-8 decoding is a parameter
  `decode: string -> Option<string>`. `None` means a decoding error.
- **Services.** Only the five fields the transform touches are explicit:
  `image`, `entrypoint`, `command`, `volumes` and `environment`. An absent
  key is `None`. Every other compose key is carried, opaque, in `rest`.
- **Snapshot.** The snapshot order `list(compose_services)` is a parameter.
  It holds every key exactly once (`IsSnapshot`), in whatever order the
  dictionary yields them.
- **KeyError.** The source raises `KeyError` at bitnami.py:162. The model
  returns `Failure(MissingService(name, services, fixed))` there. `services`
  is the service set as the exception leaves it, since the loop mutates it
  in place: services visited earlier are already rewritten and deleted
  companions are gone. `fixed` holds the repair calls made before the
  exception.
- **Trace.** The run records each repair call (`Dispatch`), so that
  properties can say which routine ran on which service.

## Where the code departs from its evident intent

The model follows the code.

- **Redis prefix.**
  - The comment at bitnami.py:51-52 expects names of the form
    `<prefix>-redis-master`.
  - The code chains two `str.replace` calls (bitnami.py:53). They remove
    every `-redis-master` and then every `-master`, anywhere in the name.
- **Overridden companions.**
  - The comment at bitnami.py:160 says a user override takes precedence.
  - `_fix_keycloak_init` removes init companions without looking at the
    overrides (bitnami.py:136-140). See Findings.
- **Removal during the loop.**
  - The loop walks a snapshot, `list(compose_services)` (bitnami.py:158),
    so deleting entries while it runs is legal in Python.
  - The loop still indexes every snapshot name (bitnami.py:162). A companion
    deleted earlier in the run raises `KeyError`. See Findings.
- **Empty values.** A credential is used only when both of these hold:
  - the first secret found is a non-empty manifest;
  - the value is a non-empty string (`if secret:`, `if password:`,
    `if admin_pw:`, `if db_pw:`).

  An empty first secret is not skipped in favour of a later candidate.

## Model

| member | source | states |
|---|---|---|
| Strings.Contains | bitnami.py:34 | Python's `sub in s`: true exactly when `sub` occurs at some index of `s` |
| Strings.ReplaceAll | bitnami.py:53 | `str.replace`: a string without the pattern is returned unchanged; removing (empty replacement) never lengthens, and changes the string exactly when the pattern occurs |
| Strings.ReplaceAllFirstOccurrence | bitnami.py:53 | when the first occurrence of the pattern starts at `i`, the result is the text before it, then the replacement, then the replaced remainder; with the no-occurrence case of `ReplaceAll` this fixes the result to Python's left-to-right, non-overlapping replacement |
| Strings.Strip | bitnami.py:108 | `str.strip("-")`: the result is a slice of the input with only `-` outside it, and it neither starts nor ends with `-` |
| Strings.ReplaceAllSkipsPrefix | bitnami.py:53 | an occurrence cannot start inside a prefix lacking the pattern's first character, so replacing copies that prefix unchanged |
| Strings.RemoveTrailingPattern | bitnami.py:108 | a name ending with the pattern, whose other part lacks the pattern's first character, loses exactly that suffix |
| Strings.StripAbsent | bitnami.py:108 | stripping a character the string does not contain changes nothing |
| Secrets.SecretValue | bitnami.py:17-28 | None exactly when neither sub-mapping has a non-null value; a plaintext value wins; otherwise the decoded `data` value, or the raw value when decoding fails |
| Secrets.UndecodableIsRaw | bitnami.py:24-27 | a `data` value that does not decode is returned exactly as stored |
| Secrets.PlaintextWins | bitnami.py:19-21 | when `stringData` has a non-null value for the key, nothing in `data` affects the result |
| Secrets.IsTruthy | bitnami.py:58 | definition of `if secret:` (also bitnami.py:115 and 125), no contract of its own; Repairs.Credential states the result through it |
| Secrets.HasValue | bitnami.py:19-23 | definition of `.get(key) is not None`, no contract of its own; Secrets.SecretValue states its result through it |
| Secrets.WellFormed | bitnami.py:19-22 | definition, no contract of its own: a non-empty sub-mapping comes from a top-level key; Secrets.ValueMeansTruthy uses it |
| Secrets.ValueMeansTruthy | bitnami.py:17-28 | a well-formed manifest that yields a value for some key is truthy, so the `if secret:` guards never hide a value |
| Secrets.FindSecret | bitnami.py:37-42 | the first candidate, in list order, that names a secret, paired with that secret; None exactly when no candidate names one |
| Secrets.FindSecretPrefersEarlier | bitnami.py:39-41 | once a candidate in the front of the list is present, candidates appended after it never change the result |
| Services.ImageOf | bitnami.py:33 | definition of `svc.get("image", "")`, no contract of its own; Services.IsBitnamiImage states its result through it |
| Services.IsBitnamiImage | bitnami.py:31-34 | true exactly when the image reference (empty when absent) contains both `bitnami` and the fragment; never for a service without an image |
| Services.Classify | bitnami.py:164-170 | the family is the first of redis, postgresql, keycloak whose fragment the Bitnami image names, else none; the four outcomes as if-and-only-ifs |
| Services.NonBitnamiIsUnmatched | bitnami.py:31-34 | an image reference without the Bitnami marker is never dispatched, whatever family name it contains |
| Repairs.Credential | bitnami.py:55-59 | nothing when no candidate exists; otherwise the key's value in the first existing candidate, or nothing when that secret is an empty manifest |
| Repairs.IsSet | bitnami.py:68 | definition of the truthiness test on a password (also bitnami.py:117 and 127), no contract of its own; Repairs.FixRedis and Repairs.InjectPasswords state their results through it |
| Repairs.VolumeRoot | bitnami.py:75 | definition of `ctx.config.get("volume_root", "./data")` (also bitnami.py:89), no contract of its own; Repairs.FixRedis and Repairs.FixPostgresql state the volumes through it |
| Repairs.RedisPassword | bitnami.py:55-59 | definition, no contract of its own: Repairs.Credential over the Redis candidates and `redis-password`; Repairs.FixRedis states the command through it |
| Repairs.FixRedis | bitnami.py:49-80 | stock image, no entrypoint, no environment, the one data volume under the volume root, `--requirepass` exactly when a non-empty password resolved; every other key kept |
| Repairs.RedisPrefix | bitnami.py:53 | the prefix is never longer than the name, and a name without `-master` is its own prefix |
| Repairs.RedisCandidates | bitnami.py:54 | three candidates: the prefix's `-redis` secret, the prefix, then the service's own name |
| Repairs.FixRedisIdempotent | bitnami.py:49-80 | running the Redis rewrite on its own output changes nothing |
| Repairs.FixRedisForgetsOldFields | bitnami.py:61-79 | the rewrite depends on the input only through the keys it does not touch |
| Repairs.RedisPrefersPrefixSecret | bitnami.py:53-59 | a `<prefix>-redis` secret with a non-empty plaintext password decides the command, whatever the later candidates hold |
| Repairs.RedisPrefixOfConventionalName | bitnami.py:53-54 | for `<release>-redis-master` and for `<release>-master`, with a dash-free release, the prefix is the release and the candidates are `<release>-redis`, `<release>`, then the name |
| Repairs.RedisWithoutSecretIsUnauthenticated | bitnami.py:57-72 | with none of the three candidate secrets present the command has no password flag |
| Repairs.FixPostgresql | bitnami.py:87-97 | the volumes become exactly the data volume and the read-only secrets volume, in that order; every other field is kept |
| Repairs.FixPostgresqlIdempotent | bitnami.py:87-97 | the PostgreSQL fix applied twice equals it applied once |
| Repairs.KeycloakPrefix | bitnami.py:108 | the prefix is never longer than the name and neither starts nor ends with `-` |
| Repairs.AdminCandidates | bitnami.py:109-112 | with a prefix: `<prefix>-keycloak`, the name, `keycloak`; without one: the name, `keycloak` |
| Repairs.DbCandidates | bitnami.py:122-123 | `<prefix>-postgresql` (or `keycloak-postgresql` without a prefix), then `keycloak-postgresql` |
| Repairs.KeycloakPrefixOfConventionalName | bitnami.py:108-110 | for `<release>-keycloak` (release dash-free, not containing `keycloak`) the prefix and the companion fragment are both the release |
| Repairs.BareKeycloakPrefix | bitnami.py:108-123 | the service named just `keycloak` has an empty prefix, so its admin candidates are `keycloak` twice and its database candidates `keycloak-postgresql` twice |
| Repairs.SetEnv | bitnami.py:118 | `setdefault("environment", {})[var] = value`: the environment exists afterwards, binds the variable, keeps every other entry, and nothing else changes |
| Repairs.InjectPasswords | bitnami.py:115-129 | each variable is set exactly when its value is a non-empty string; other entries kept; an environment is created only when something is set |
| Repairs.InjectPasswordsIdempotent | bitnami.py:115-129 | injecting the same passwords twice equals injecting them once |
| Repairs.AdminPassword | bitnami.py:114-116 | definition, no contract of its own: Repairs.Credential over the admin candidates and `admin-password`; Repairs.FixKeycloak states its result through it |
| Repairs.DbPassword | bitnami.py:124-126 | definition, no contract of its own: Repairs.Credential over the database candidates and `password`; Repairs.FixKeycloak states its result through it |
| Repairs.FixKeycloak | bitnami.py:104-129 | only the environment changes; it carries each resolved non-empty password under its variable; a variable whose password does not resolve keeps its old binding or absence; the record is untouched when neither resolves |
| Repairs.FixKeycloakIdempotent | bitnami.py:104-129 | the Keycloak fix applied twice equals it applied once |
| Repairs.InitFragment | bitnami.py:137 | the fragment is never longer than the name, and a name without `-keycloak` is its own fragment |
| Repairs.IsInitCompanion | bitnami.py:137 | no contract of its own; Repairs.ConventionalCompanionRemoved and Repairs.UnmarkedNeverRemoved state which names it accepts |
| Repairs.RemoveKeycloakInit | bitnami.py:132-141 | a name survives exactly when it is not an unspared init companion (contains the fragment and the marker), with its record unchanged |
| Repairs.ConventionalCompanionRemoved | bitnami.py:136-140 | `<fragment><anything>init-prepare-write-dirs` is a companion and is removed unless spared |
| Repairs.UnmarkedNeverRemoved | bitnami.py:137 | a service whose name lacks the marker always survives |
| Repairs.Repair | bitnami.py:164-169 | definition, no contract of its own: the repair routine of the classifier's family, or the record unchanged; Workarounds.Apply and Workarounds.TransformOutcome state their results through it |
| Workarounds.IsSnapshot | bitnami.py:158 | definition of `list(compose_services)`, no contract of its own: every key exactly once; Workarounds.TransformOutcome and Workarounds.AsWrittenFailure require it |
| Workarounds.Step | bitnami.py:158-170 | no contract of its own; Workarounds.AsWrittenFailure, Workarounds.StepRefines and the run invariant lemmas state what one iteration does |
| Workarounds.Run | bitnami.py:158-170 | no contract of its own; Workarounds.RunRefines and Workarounds.TransformOutcome state what the loop does |
| Workarounds.Transform | bitnami.py:154-170 | no contract of its own; Workarounds.TransformOutcome and Workarounds.AsWrittenFailure state what the transform returns |
| Workarounds.Apply | bitnami.py:164-170 | one dispatch: the service gets its repaired record, no other record changes, and the removed names are exactly the unspared companions of a Keycloak service |
| Workarounds.TransformOutcome | bitnami.py:154-170 | after a successful run: no service added; survivors hold their original or, if not overridden, repaired record; each removal is a companion of a non-overridden Keycloak service whose repair call is in the trace; calls go once per name to the classifier's family, and every surviving matched service had its call |
| Workarounds.OverridesNeverDispatched | bitnami.py:158-160 | after a successful run, no repair routine ran on an overridden name; Workarounds.AsWrittenFailure states the same for a run that fails |
| Workarounds.OverriddenRecordsUnchanged | bitnami.py:158-160 | after a successful run, an overridden service still present holds its original record; Workarounds.AsWrittenFailure states the same for a run that fails |
| Workarounds.UnmatchedUnchanged | bitnami.py:164-170 | a service of no family is left as it was unless a companion removal deleted it |
| Workarounds.NoKeycloakNoRemoval | bitnami.py:168-170 | without a dispatched Keycloak service the run deletes nothing |
| Workarounds.AsWrittenFailure | bitnami.py:158-162 | a run fails only as written, with KeyError on a non-overridden name that is a companion of a non-overridden Keycloak service which comes earlier in the snapshot and whose repair call the error's trace holds; the service set left behind lacks that name, gained no service, and holds each survivor as it was or repaired; no repair call went to an overridden name, and each overridden survivor holds its original record |
| Workarounds.StepRefines | bitnami.py:158-170 | when no overridden name carries the companion marker, an iteration the source completes is the same in the corrected loop |
| Workarounds.RunRefines | bitnami.py:158-170 | the same for any sequence of iterations |
| Workarounds.GuardedRefinesAsWritten | bitnami.py:154-170 | when no overridden name carries the companion marker and the source's run succeeds, the corrected run ends in the very same state |
| Workarounds.GuardedNeverFails | bitnami.py:158-162 | the corrected run never fails, whatever the snapshot order |
| Workarounds.GuardedKeepsOverrides | bitnami.py:158-170 | the corrected run keeps every overridden service, with its original record |
| Scenarios.BitnamiImageNames | bitnami.py:31-34 | `bitnami/<family>:<tag>` names the marker and the family |
| Scenarios.RedisImageClassified | bitnami.py:164-165 | a `bitnami/redis:<tag>` image is dispatched to the Redis fix |
| Scenarios.PostgresqlImageClassified | bitnami.py:166-167 | a `bitnami/postgresql:<tag>` image is dispatched to the PostgreSQL fix when the tag cannot spell `redis` |
| Scenarios.KeycloakImageClassified | bitnami.py:168-169 | a `bitnami/keycloak:<tag>` image is dispatched to the Keycloak fix when the tag cannot spell the other fragments |
| Scenarios.MostSpecificSecretWins | bitnami.py:53-55 | given secrets `<release>-redis` and `<release>`, `<release>-redis-master` takes the password of `<release>-redis` |
| Scenarios.RedisWithSecret | bitnami.py:49-80 | the whole run on a Redis master with its secret yields the stock server with `--requirepass`, one data volume, no entrypoint or environment |
| Scenarios.RedisWithoutSecret | bitnami.py:57-73 | the same service with no secret gets the bare `redis-server` command |
| Scenarios.PostgresqlVolumes | bitnami.py:87-97 | the whole run on a PostgreSQL service changes only its volumes, to exactly the two mounts in order |
| Scenarios.KeycloakAdminResolves | bitnami.py:108-118 | the admin password comes from the `<release>-keycloak` secret |
| Scenarios.KeycloakDbResolves | bitnami.py:122-128 | the database password comes from `keycloak-postgresql` when `<release>-postgresql` is absent |
| Scenarios.KeycloakCompanionFirst | bitnami.py:164-170 | with a companion whose image matches no family listed first, the Keycloak service gets both passwords and the companion is gone |
| Scenarios.CompanionAfterMainFails | bitnami.py:158-162 | with the companion listed after the Keycloak service, the source's run fails with KeyError on the companion, leaving only the repaired Keycloak service and its one repair call |
| Scenarios.CompanionAfterMainGuarded | bitnami.py:158-162 | the corrected run on that order succeeds and leaves only the repaired Keycloak service, with its one repair call |
| Scenarios.OverriddenCompanionRemoved | bitnami.py:136-140 | the source deletes a companion the user overrode |
| Scenarios.OverriddenCompanionKept | bitnami.py:158-170 | the corrected run keeps the overridden companion's record and repairs only the Keycloak service |

## Left out

- `_log` (bitnami.py:13-14) and every log message: output to stderr only,
  with no effect on the result.
- Base64 and UTF-8 decoding (bitnami.py:25): a `decode` parameter of the
  context, not a model of the codec.
- The `name` and `priority` attributes (bitnami.py:151-152): registration
  data for the pipeline driver.
- The `ingress_entries` argument is unused by the source. The `ctx` object is
  reduced to the secrets, `volume_root`, the keys of `overrides` and the
  decoder.
- Inputs the source does not guard against are left out. These are an
  `image`, `environment` or `volume_root` of the wrong type, a null
  environment before `setdefault`, a secret manifest that is not a mapping,
  and a `stringData` or `data` value that is not a string (a YAML number
  passed to `base64.b64decode` at bitnami.py:25 raises an uncaught
  `TypeError`). Secret values are strings in the model.
- Dictionary iteration order: the snapshot is a parameter, so every order is
  covered.
- In-place mutation and aliasing of service dictionaries: each routine
  returns a new record.
- Strings.ReplaceAll: requires a non-empty pattern. Every pattern the source
  uses is a non-empty literal; Python's rule for an empty pattern is not
  modelled.
- Repairs.FixRedis: the volume root is the configured string as given.
  Python's f-string rendering of a non-string value is not modelled.
- The scenarios are stated for non-empty release names without `-` (and,
  for Keycloak, without `w` and without the word `keycloak`), and for tags
  without `d` and `p`. These are the shapes for which the prefix heuristics
  and the family tests give the conventional answer.
- Scenarios.KeycloakCompanionFirst: the companion's image matches no
  family. A companion that itself runs a Bitnami Keycloak image is
  dispatched to the Keycloak fix first, removes itself, and leaves a second
  repair call in the trace; that run is not stated as a scenario.

## Findings

| source | as written | input that shows it | evidently intended | confidence | as-written member | corrected member |
|---|---|---|---|---|---|---|
| bitnami.py:158-162 | every snapshot name is looked up with `compose_services[svc_name]`, even one that `_fix_keycloak_init` deleted earlier in the run | services `auth-keycloak` (image `bitnami/keycloak:23`) and `auth-init-prepare-write-dirs`, in that snapshot order: the companion is deleted, then looked up, raising `KeyError` | names removed earlier in the run are skipped | not executed | Scenarios.CompanionAfterMainFails | Workarounds.GuardedNeverFails |
| bitnami.py:136-140 | init companions are deleted without consulting the user overrides | the same services with `auth-init-prepare-write-dirs` in `overrides`: the overridden service is deleted | a service listed in the overrides is never removed | not executed | Scenarios.OverriddenCompanionRemoved | Workarounds.GuardedKeepsOverrides |
