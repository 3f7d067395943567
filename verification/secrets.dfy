/**
 * Secret manifests and the two lookup helpers of the transform:
 * `_secret_value` (plaintext first, then base64 with a raw fallback) and
 * `_find_secret` (first candidate name that is present).
 */
module Secrets {
  import opened Wrappers

  /** A sub-mapping of a manifest; a `None` value is a YAML null. */
  type Entries = map<string, Option<string>>

  /**
   * A secret manifest.  `keys` is its set of top-level keys (Python
   * truthiness of the manifest depends only on it); `stringData` and
   * `data` are the two sub-mappings after `or {}`, so a missing, null or
   * empty sub-mapping is the empty map.
   */
  datatype Secret = Secret(keys: set<string>, stringData: Entries, data: Entries)

  /** Decoding of a base64 value to UTF-8 text; None stands for a decode error. */
  type Decoder = string -> Option<string>

  /** Python's `if secret:` — a manifest is truthy iff it has a top-level key. */
  predicate IsTruthy(secret: Secret) {
    secret.keys != {}
  }

  /**
   * A manifest parsed from YAML: a non-empty sub-mapping comes from a
   * top-level key of the same name.
   */
  predicate WellFormed(secret: Secret) {
    && (secret.stringData != map[] ==> "stringData" in secret.keys)
    && (secret.data != map[] ==> "data" in secret.keys)
  }

  /** `e.get(key)` is not None. */
  predicate HasValue(e: Entries, key: string) {
    key in e && e[key].Some?
  }

  /**
   * The value of `key` in a secret: the plaintext value when there is one
   * (whatever `data` holds), otherwise the decoded `data` value, or the raw
   * `data` value when it does not decode; None exactly when neither
   * sub-mapping has a non-null value for the key.
   */
  function SecretValue(secret: Secret, key: string, decode: Decoder): (r: Option<string>)
    ensures r.None? <==> !HasValue(secret.stringData, key) && !HasValue(secret.data, key)
    ensures HasValue(secret.stringData, key) ==> r == secret.stringData[key]
    ensures !HasValue(secret.stringData, key) && HasValue(secret.data, key) ==>
              var raw := secret.data[key].value;
              r == Some(if decode(raw).Some? then decode(raw).value else raw)
  {
    if HasValue(secret.stringData, key) then
      secret.stringData[key]
    else if HasValue(secret.data, key) then
      var raw := secret.data[key].value;
      Some(decode(raw).GetOr(raw))
    else
      None
  }

  /** A plaintext value hides whatever `data` holds for the same key. */
  lemma PlaintextWins(secret: Secret, key: string, data': Entries, decode: Decoder)
    requires HasValue(secret.stringData, key)
    ensures SecretValue(secret.(data := data'), key, decode) == SecretValue(secret, key, decode)
  {
  }

  /** A `data` value that does not decode is returned exactly as stored. */
  lemma UndecodableIsRaw(secret: Secret, key: string, decode: Decoder)
    requires !HasValue(secret.stringData, key) && HasValue(secret.data, key)
    requires decode(secret.data[key].value).None?
    ensures SecretValue(secret, key, decode) == Some(secret.data[key].value)
  {
  }

  /** A well-formed manifest that yields a value for some key is truthy. */
  lemma ValueMeansTruthy(secret: Secret, key: string, decode: Decoder)
    requires WellFormed(secret)
    requires SecretValue(secret, key, decode).Some?
    ensures IsTruthy(secret)
  {
    if HasValue(secret.stringData, key) {
      assert key in secret.stringData;
    } else {
      assert key in secret.data;
    }
  }

  /** Some candidate at index `i` is a secret name. */
  ghost predicate PresentAt(secrets: map<string, Secret>, candidates: seq<string>, i: int) {
    0 <= i < |candidates| && candidates[i] in secrets
  }

  /** Index `i` holds the first candidate that is a secret name. */
  ghost predicate FirstPresent(secrets: map<string, Secret>, candidates: seq<string>, i: int) {
    PresentAt(secrets, candidates, i) && forall j :: 0 <= j < i ==> candidates[j] !in secrets
  }

  /**
   * The first candidate, in list order, that names a secret, with that
   * secret; None iff no candidate names a secret.
   */
  function FindSecret(secrets: map<string, Secret>, candidates: seq<string>): (r: Option<(string, Secret)>)
    ensures r.None? <==> forall i :: 0 <= i < |candidates| ==> candidates[i] !in secrets
    ensures r.Some? ==> exists i :: FirstPresent(secrets, candidates, i) && candidates[i] == r.value.0
    ensures r.Some? ==> r.value.0 in secrets && r.value.1 == secrets[r.value.0]
    decreases |candidates|
  {
    if |candidates| == 0 then
      None
    else if candidates[0] in secrets then
      assert FirstPresent(secrets, candidates, 0);
      Some((candidates[0], secrets[candidates[0]]))
    else
      var r := FindSecret(secrets, candidates[1..]);
      assert forall i :: 1 <= i < |candidates| ==> candidates[i] == candidates[1..][i - 1];
      assert r.Some? ==> exists i :: FirstPresent(secrets, candidates, i) && candidates[i] == r.value.0 by {
        if r.Some? {
          var i :| FirstPresent(secrets, candidates[1..], i) && candidates[1..][i] == r.value.0;
          assert FirstPresent(secrets, candidates, i + 1);
        }
      }
      r
  }

  /** A candidate that names a secret wins over every later candidate. */
  lemma FindSecretPrefersEarlier(secrets: map<string, Secret>, front: seq<string>, back: seq<string>)
    requires exists i :: 0 <= i < |front| && front[i] in secrets
    ensures FindSecret(secrets, front + back) == FindSecret(secrets, front)
  {
    var k :| 0 <= k < |front| && front[k] in secrets;
    assert (front + back)[k] == front[k];
    var r := FindSecret(secrets, front + back);
    var i :| FirstPresent(secrets, front + back, i) && (front + back)[i] == r.value.0;
    var q := FindSecret(secrets, front);
    var i' :| FirstPresent(secrets, front, i') && front[i'] == q.value.0;
    assert (front + back)[i'] == front[i'];
  }
}
