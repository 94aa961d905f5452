/**
 * The environment `exec` hands to the subprocess (cli/exec.go,
 * updateEnvForAwsVault and the environment-building part of execEnvironment).
 *
 * Facts are stated per variable name in two ways: how many entries for the
 * name the result holds, for any incoming environment; and which value a
 * reader of the result sees, when the incoming environment holds the name at
 * most once.
 */
module ExecEnv {
  import opened Wrappers
  import opened Environ

  const AwsAccessKeyId: string := "AWS_ACCESS_KEY_ID"
  const AwsSecretAccessKey: string := "AWS_SECRET_ACCESS_KEY"
  const AwsSessionToken: string := "AWS_SESSION_TOKEN"
  const AwsSecurityToken: string := "AWS_SECURITY_TOKEN"
  const AwsCredentialFile: string := "AWS_CREDENTIAL_FILE"
  const AwsDefaultProfile: string := "AWS_DEFAULT_PROFILE"
  const AwsProfile: string := "AWS_PROFILE"
  const AwsSdkLoadConfig: string := "AWS_SDK_LOAD_CONFIG"
  const AwsVault: string := "AWS_VAULT"
  const AwsRegion: string := "AWS_REGION"
  const AwsDefaultRegion: string := "AWS_DEFAULT_REGION"
  const AwsCredentialExpiration: string := "AWS_CREDENTIAL_EXPIRATION"

  /** The credential and profile variables removed before anything is set, in the order they are removed. */
  const ScrubbedKeys: seq<string> := [
    AwsAccessKeyId, AwsSecretAccessKey, AwsSessionToken, AwsSecurityToken,
    AwsCredentialFile, AwsDefaultProfile, AwsProfile, AwsSdkLoadConfig
  ]

  /** No name occurs twice in `keys` and each is a variable name. */
  predicate DistinctKeys(keys: seq<string>) {
    && (forall i :: 0 <= i < |keys| ==> ValidKey(keys[i]))
    && (forall i, j :: 0 <= i < j < |keys| ==> keys[i] != keys[j])
  }

  /** The names used here are variable names, and the scrubbed ones are distinct. */
  lemma KnownKeysValid()
    ensures DistinctKeys(ScrubbedKeys)
    ensures ValidKey(AwsVault) && ValidKey(AwsRegion) && ValidKey(AwsDefaultRegion)
    ensures ValidKey(AwsCredentialExpiration)
  {
  }

  /** The names set after scrubbing are not among the scrubbed ones and differ from each other. */
  lemma KnownKeysDistinct()
    ensures AwsVault !in ScrubbedKeys && AwsRegion !in ScrubbedKeys
    ensures AwsDefaultRegion !in ScrubbedKeys && AwsCredentialExpiration !in ScrubbedKeys
    ensures AwsVault != AwsRegion && AwsVault != AwsDefaultRegion && AwsRegion != AwsDefaultRegion
    ensures AwsCredentialExpiration !in [AwsVault, AwsRegion, AwsDefaultRegion]
    ensures AwsAccessKeyId != AwsSecretAccessKey && AwsAccessKeyId != AwsSessionToken
    ensures AwsSecretAccessKey != AwsSessionToken
  {
  }

  /** Unset each of `keys` once, in order. */
  function UnsetEach(env: Environ, keys: seq<string>): (r: Environ)
    ensures |env| - |keys| <= |r| <= |env|
    decreases keys
  {
    if keys == [] then env else UnsetEach(Unset(env, keys[0]), keys[1..])
  }

  /** Unsetting each of several distinct names removes at most one entry per listed name and none for another name. */
  lemma {:induction false} UnsetEachCount(env: Environ, keys: seq<string>, k: string)
    requires DistinctKeys(keys) && ValidKey(k)
    ensures Count(UnsetEach(env, keys), k) == if k in keys then Dec(Count(env, k)) else Count(env, k)
    decreases keys
  {
    if keys != [] {
      assert DistinctKeys(keys[1..]);
      UnsetCountByKey(env, keys[0], k);
      UnsetEachCount(Unset(env, keys[0]), keys[1..], k);
      assert k in keys <==> k == keys[0] || k in keys[1..];
      if k == keys[0] {
        assert k !in keys[1..];
      }
    }
  }

  /** Unsetting each of several distinct names removes their values and keeps every other name's. */
  lemma {:induction false} UnsetEachLookup(env: Environ, keys: seq<string>, k: string)
    requires DistinctKeys(keys) && ValidKey(k) && Count(env, k) <= 1
    ensures Lookup(UnsetEach(env, keys), k) == if k in keys then None else Lookup(env, k)
    decreases keys
  {
    if keys != [] {
      assert DistinctKeys(keys[1..]);
      UnsetLookupByKey(env, keys[0], k);
      UnsetCountByKey(env, keys[0], k);
      UnsetEachLookup(Unset(env, keys[0]), keys[1..], k);
      assert k in keys <==> k == keys[0] || k in keys[1..];
      if k == keys[0] {
        assert k !in keys[1..];
        UnsetEachCount(Unset(env, keys[0]), keys[1..], k);
      }
    }
  }

  /** Entries for none of `keys` survive UnsetEach with their multiplicity. */
  lemma {:induction false} UnsetEachKeeps(env: Environ, keys: seq<string>, e: string)
    requires forall i :: 0 <= i < |keys| ==> !Matches(e, keys[i])
    ensures multiset(UnsetEach(env, keys))[e] == multiset(env)[e]
    decreases keys
  {
    if keys != [] {
      UnsetKeeps(env, keys[0], e);
      UnsetEachKeeps(Unset(env, keys[0]), keys[1..], e);
    }
  }

  /**
   * Removes the scrubbed variables, records the profile in AWS_VAULT and, when
   * a region is given, sets AWS_REGION and AWS_DEFAULT_REGION to it.
   */
  function UpdateEnvForAwsVault(env: Environ, profileName: string, region: string): (r: Environ)
    ensures |r| > 0
    ensures region == "" ==> r[|r| - 1] == Prefix(AwsVault) + profileName
    ensures region != "" ==> r[|r| - 1] == Prefix(AwsDefaultRegion) + region
  {
    var scrubbed := UnsetEach(env, ScrubbedKeys);
    var withVault := Set(scrubbed, AwsVault, profileName);
    if region != "" then
      Set(Set(withVault, AwsRegion, region), AwsDefaultRegion, region)
    else
      withVault
  }

  /** The number of entries for `k` UpdateEnvForAwsVault leaves, given `n` incoming ones. */
  function UpdatedCount(n: nat, k: string, region: string): nat {
    if k in ScrubbedKeys then Dec(n)
    else if k == AwsVault then Dec(n) + 1
    else if (k == AwsRegion || k == AwsDefaultRegion) && region != "" then Dec(n) + 1
    else n
  }

  /** A name that occurs at most once still does so after UpdateEnvForAwsVault. */
  lemma UpdatedCountAtMostOne(n: nat, k: string, region: string)
    requires n <= 1
    ensures UpdatedCount(n, k, region) <= 1
  {
  }

  /** The value of `k` UpdateEnvForAwsVault leaves, given its incoming value `v`. */
  function UpdatedValue(v: Option<string>, k: string, profileName: string, region: string): Option<string> {
    if k in ScrubbedKeys then None
    else if k == AwsVault then Some(profileName)
    else if (k == AwsRegion || k == AwsDefaultRegion) && region != "" then Some(region)
    else v
  }

  /**
   * Per variable name: each scrubbed name and AWS_VAULT lose one earlier
   * entry, AWS_VAULT gains the new one, the region names do the same when a
   * region is given, and every other name keeps all its entries.
   */
  lemma UpdateEnvCount(env: Environ, profileName: string, region: string, k: string)
    requires ValidKey(k)
    ensures Count(UpdateEnvForAwsVault(env, profileName, region), k) == UpdatedCount(Count(env, k), k, region)
  {
    KnownKeysValid();
    KnownKeysDistinct();
    var scrubbed := UnsetEach(env, ScrubbedKeys);
    var withVault := Set(scrubbed, AwsVault, profileName);
    UnsetEachCount(env, ScrubbedKeys, k);
    SetCountByKey(scrubbed, AwsVault, profileName, k);
    if region != "" {
      SetCountByKey(withVault, AwsRegion, region, k);
      SetCountByKey(Set(withVault, AwsRegion, region), AwsDefaultRegion, region, k);
    }
  }

  /**
   * When the incoming environment holds `k` at most once: a scrubbed name has
   * no value afterwards, AWS_VAULT holds the profile name, the region names
   * hold the region when one is given, and every other name keeps its value.
   */
  lemma UpdateEnvLookup(env: Environ, profileName: string, region: string, k: string)
    requires ValidKey(k) && Count(env, k) <= 1
    ensures Lookup(UpdateEnvForAwsVault(env, profileName, region), k) ==
      UpdatedValue(Lookup(env, k), k, profileName, region)
  {
    KnownKeysValid();
    KnownKeysDistinct();
    var scrubbed := UnsetEach(env, ScrubbedKeys);
    var withVault := Set(scrubbed, AwsVault, profileName);
    UnsetEachLookup(env, ScrubbedKeys, k);
    UnsetEachCount(env, ScrubbedKeys, k);
    SetLookupByKey(scrubbed, AwsVault, profileName, k);
    if region != "" {
      SetCountByKey(scrubbed, AwsVault, profileName, k);
      SetLookupByKey(withVault, AwsRegion, region, k);
      SetCountByKey(withVault, AwsRegion, region, k);
      SetLookupByKey(Set(withVault, AwsRegion, region), AwsDefaultRegion, region, k);
    }
  }

  /**
   * Whatever the incoming environment holds, the result contains
   * `AWS_VAULT=<profile>` and, when a region is given, `AWS_REGION=<region>`
   * and `AWS_DEFAULT_REGION=<region>`.
   */
  lemma UpdateEnvHolds(env: Environ, profileName: string, region: string)
    ensures Prefix(AwsVault) + profileName in UpdateEnvForAwsVault(env, profileName, region)
    ensures region != "" ==> Prefix(AwsRegion) + region in UpdateEnvForAwsVault(env, profileName, region)
    ensures region != "" ==> Prefix(AwsDefaultRegion) + region in UpdateEnvForAwsVault(env, profileName, region)
  {
    KnownKeysValid();
    KnownKeysDistinct();
    var scrubbed := UnsetEach(env, ScrubbedKeys);
    var withVault := Set(scrubbed, AwsVault, profileName);
    var vault := Prefix(AwsVault) + profileName;
    assert vault == withVault[|withVault| - 1];
    if region != "" {
      var withRegion := Set(withVault, AwsRegion, region);
      var regionEntry := Prefix(AwsRegion) + region;
      SetKeepsOtherEntry(withVault, AwsRegion, region, AwsVault, vault);
      assert regionEntry == withRegion[|withRegion| - 1];
      SetKeepsOtherEntry(withRegion, AwsDefaultRegion, region, AwsVault, vault);
      SetKeepsOtherEntry(withRegion, AwsDefaultRegion, region, AwsRegion, regionEntry);
    }
  }

  /** Whether `e` is an entry for a variable UpdateEnvForAwsVault may remove. */
  predicate TouchedByUpdate(e: string) {
    || (exists i :: 0 <= i < |ScrubbedKeys| && Matches(e, ScrubbedKeys[i]))
    || Matches(e, AwsVault) || Matches(e, AwsRegion) || Matches(e, AwsDefaultRegion)
  }

  /** Every entry for another variable, and every entry that is not "key=value" at all, is kept as often as it occurs. */
  lemma UpdateEnvKeeps(env: Environ, profileName: string, region: string, e: string)
    requires !TouchedByUpdate(e)
    ensures multiset(UpdateEnvForAwsVault(env, profileName, region))[e] == multiset(env)[e]
  {
    var scrubbed := UnsetEach(env, ScrubbedKeys);
    var withVault := Set(scrubbed, AwsVault, profileName);
    UnsetEachKeeps(env, ScrubbedKeys, e);
    SetKeeps(scrubbed, AwsVault, profileName, e);
    if region != "" {
      SetKeeps(withVault, AwsRegion, region, e);
      SetKeeps(Set(withVault, AwsRegion, region), AwsDefaultRegion, region, e);
    }
  }

  /**
   * With a region, the last two entries are AWS_REGION then
   * AWS_DEFAULT_REGION provided the incoming environment has no
   * AWS_DEFAULT_REGION entry.
   */
  lemma UpdateEnvRegionOrder(env: Environ, profileName: string, region: string)
    requires region != "" && Count(env, AwsDefaultRegion) == 0
    ensures var r := UpdateEnvForAwsVault(env, profileName, region);
      |r| >= 2 && r[|r| - 2] == Prefix(AwsRegion) + region && r[|r| - 1] == Prefix(AwsDefaultRegion) + region
  {
    KnownKeysValid();
    KnownKeysDistinct();
    var scrubbed := UnsetEach(env, ScrubbedKeys);
    var withVault := Set(scrubbed, AwsVault, profileName);
    var withRegion := Set(withVault, AwsRegion, region);
    UnsetEachCount(env, ScrubbedKeys, AwsDefaultRegion);
    SetCountByKey(scrubbed, AwsVault, profileName, AwsDefaultRegion);
    SetCountByKey(withVault, AwsRegion, region, AwsDefaultRegion);
    assert Unset(withRegion, AwsDefaultRegion) == withRegion;
  }

  /**
   * Here the single incoming AWS_DEFAULT_REGION entry is overwritten by moving
   * the last entry, AWS_REGION, into its slot, so AWS_REGION ends first rather
   * than next to last.
   */
  lemma UpdateEnvRegionOrderExample()
    ensures UpdateEnvForAwsVault(["AWS_DEFAULT_REGION=eu-west-1"], "dev", "us-east-1")
      == ["AWS_REGION=us-east-1", "AWS_VAULT=dev", "AWS_DEFAULT_REGION=us-east-1"]
  {
    KnownKeysValid();
    KnownKeysDistinct();
    var oldRegion := Prefix(AwsDefaultRegion) + "eu-west-1";
    var vault := Prefix(AwsVault) + "dev";
    var region := Prefix(AwsRegion) + "us-east-1";
    var defaultRegion := Prefix(AwsDefaultRegion) + "us-east-1";
    assert oldRegion == "AWS_DEFAULT_REGION=eu-west-1";
    assert vault == "AWS_VAULT=dev";
    assert region == "AWS_REGION=us-east-1";
    assert defaultRegion == "AWS_DEFAULT_REGION=us-east-1";
    var env := [oldRegion];
    RegionExampleVault(oldRegion);
    var withVault := [oldRegion, vault];
    DistinctKeysDisjoint(oldRegion, AwsDefaultRegion, AwsRegion);
    DistinctKeysDisjoint(vault, AwsVault, AwsRegion);
    assert Count(withVault, AwsRegion) == 0;
    var withRegion := withVault + [region];
    assert Set(withVault, AwsRegion, "us-east-1") == withRegion;
    assert FirstMatch(withRegion, AwsDefaultRegion) == Some(0);
    assert Unset(withRegion, AwsDefaultRegion) == [region, vault];
  }

  /** The first steps of the example above: nothing to scrub, then AWS_VAULT appended. */
  lemma RegionExampleVault(oldRegion: string)
    requires oldRegion == Prefix(AwsDefaultRegion) + "eu-west-1"
    ensures Set(UnsetEach([oldRegion], ScrubbedKeys), AwsVault, "dev") == [oldRegion, Prefix(AwsVault) + "dev"]
  {
    KnownKeysValid();
    KnownKeysDistinct();
    var env := [oldRegion];
    forall i | 0 <= i < |ScrubbedKeys|
      ensures Count(env, ScrubbedKeys[i]) == 0
    {
      DistinctKeysDisjoint(oldRegion, AwsDefaultRegion, ScrubbedKeys[i]);
    }
    UnsetEachNoEntries(env, ScrubbedKeys);
    DistinctKeysDisjoint(oldRegion, AwsDefaultRegion, AwsVault);
    assert Unset(env, AwsVault) == env;
  }

  /** UnsetEach leaves an environment alone when none of the names has an entry. */
  lemma {:induction false} UnsetEachNoEntries(env: Environ, keys: seq<string>)
    requires forall i :: 0 <= i < |keys| ==> Count(env, keys[i]) == 0
    ensures UnsetEach(env, keys) == env
    decreases keys
  {
    if keys != [] {
      assert Count(env, keys[0]) == 0;
      UnsetEachNoEntries(env, keys[1..]);
    }
  }

  /** A point in time, as the credential provider reports it. */
  type Time = int

  /** The credentials the provider hands back (aws.Credentials). */
  datatype Credentials = Credentials(
    accessKeyId: string,
    secretAccessKey: string,
    sessionToken: string,
    canExpire: bool,
    expires: Time)

  /**
   * Puts the credentials into an environment: the key pair, then the session
   * token when there is one, then the expiry, formatted by `formatTime`, when
   * the credentials can expire.
   */
  function SetCredentials(env: Environ, creds: Credentials, formatTime: Time -> string): (r: Environ)
    ensures |r| > 0
    ensures creds.canExpire ==>
      r[|r| - 1] == Prefix(AwsCredentialExpiration) + formatTime(creds.expires)
    ensures !creds.canExpire && creds.sessionToken != "" ==>
      r[|r| - 1] == Prefix(AwsSessionToken) + creds.sessionToken
    ensures !creds.canExpire && creds.sessionToken == "" ==>
      r[|r| - 1] == Prefix(AwsSecretAccessKey) + creds.secretAccessKey
  {
    var withKeys := Set(Set(env, AwsAccessKeyId, creds.accessKeyId), AwsSecretAccessKey, creds.secretAccessKey);
    var withToken := if creds.sessionToken != "" then Set(withKeys, AwsSessionToken, creds.sessionToken) else withKeys;
    if creds.canExpire then
      Set(withToken, AwsCredentialExpiration, formatTime(creds.expires))
    else
      withToken
  }

  /** The environment of a subprocess that receives the credentials themselves. */
  function ExecEnvironment(env: Environ, profileName: string, region: string,
                           creds: Credentials, formatTime: Time -> string): (r: Environ)
    ensures |r| > 0
    ensures creds.canExpire ==>
      r[|r| - 1] == Prefix(AwsCredentialExpiration) + formatTime(creds.expires)
    ensures !creds.canExpire && creds.sessionToken != "" ==>
      r[|r| - 1] == Prefix(AwsSessionToken) + creds.sessionToken
    ensures !creds.canExpire && creds.sessionToken == "" ==>
      r[|r| - 1] == Prefix(AwsSecretAccessKey) + creds.secretAccessKey
  {
    SetCredentials(UpdateEnvForAwsVault(env, profileName, region), creds, formatTime)
  }

  /**
   * Per variable name: each credential variable set loses one earlier entry
   * and gains the new one; the session token and the expiry are touched only
   * when the credentials carry them; every other name keeps its entries.
   */
  lemma SetCredentialsCount(env: Environ, creds: Credentials, formatTime: Time -> string, k: string)
    requires ValidKey(k)
    ensures var n := Count(env, k);
      Count(SetCredentials(env, creds, formatTime), k) ==
        if k == AwsAccessKeyId || k == AwsSecretAccessKey then Dec(n) + 1
        else if k == AwsSessionToken && creds.sessionToken != "" then Dec(n) + 1
        else if k == AwsCredentialExpiration && creds.canExpire then Dec(n) + 1
        else n
  {
    KnownKeysValid();
    KnownKeysDistinct();
    var withAccess := Set(env, AwsAccessKeyId, creds.accessKeyId);
    var withKeys := Set(withAccess, AwsSecretAccessKey, creds.secretAccessKey);
    var withToken := if creds.sessionToken != "" then Set(withKeys, AwsSessionToken, creds.sessionToken) else withKeys;
    SetCountByKey(env, AwsAccessKeyId, creds.accessKeyId, k);
    SetCountByKey(withAccess, AwsSecretAccessKey, creds.secretAccessKey, k);
    if creds.sessionToken != "" {
      SetCountByKey(withKeys, AwsSessionToken, creds.sessionToken, k);
    }
    if creds.canExpire {
      SetCountByKey(withToken, AwsCredentialExpiration, formatTime(creds.expires), k);
    }
  }

  /**
   * When `k` occurs at most once: the key pair hold the credentials' keys,
   * the session token holds the credentials' token when there is one, the
   * expiry holds the formatted expiry when the credentials can expire, and
   * every other name keeps its value.
   */
  lemma SetCredentialsLookup(env: Environ, creds: Credentials, formatTime: Time -> string, k: string)
    requires ValidKey(k) && Count(env, k) <= 1
    ensures Lookup(SetCredentials(env, creds, formatTime), k) ==
      if k == AwsAccessKeyId then Some(creds.accessKeyId)
      else if k == AwsSecretAccessKey then Some(creds.secretAccessKey)
      else if k == AwsSessionToken && creds.sessionToken != "" then Some(creds.sessionToken)
      else if k == AwsCredentialExpiration && creds.canExpire then Some(formatTime(creds.expires))
      else Lookup(env, k)
  {
    KnownKeysValid();
    KnownKeysDistinct();
    var withAccess := Set(env, AwsAccessKeyId, creds.accessKeyId);
    var withKeys := Set(withAccess, AwsSecretAccessKey, creds.secretAccessKey);
    var withToken := if creds.sessionToken != "" then Set(withKeys, AwsSessionToken, creds.sessionToken) else withKeys;
    SetLookupByKey(env, AwsAccessKeyId, creds.accessKeyId, k);
    SetCountByKey(env, AwsAccessKeyId, creds.accessKeyId, k);
    SetLookupByKey(withAccess, AwsSecretAccessKey, creds.secretAccessKey, k);
    SetCountByKey(withAccess, AwsSecretAccessKey, creds.secretAccessKey, k);
    if creds.sessionToken != "" {
      SetLookupByKey(withKeys, AwsSessionToken, creds.sessionToken, k);
      SetCountByKey(withKeys, AwsSessionToken, creds.sessionToken, k);
    }
    if creds.canExpire {
      SetLookupByKey(withToken, AwsCredentialExpiration, formatTime(creds.expires), k);
    }
  }

  /**
   * Whatever the environment holds, the result contains the credentials' key
   * pair, their session token when it is non-empty, and their formatted
   * expiry when they can expire.
   */
  lemma SetCredentialsHolds(env: Environ, creds: Credentials, formatTime: Time -> string)
    ensures var r := SetCredentials(env, creds, formatTime);
      && Prefix(AwsAccessKeyId) + creds.accessKeyId in r
      && Prefix(AwsSecretAccessKey) + creds.secretAccessKey in r
      && (creds.sessionToken != "" ==> Prefix(AwsSessionToken) + creds.sessionToken in r)
      && (creds.canExpire ==> Prefix(AwsCredentialExpiration) + formatTime(creds.expires) in r)
  {
    KnownKeysValid();
    KnownKeysDistinct();
    var access := Prefix(AwsAccessKeyId) + creds.accessKeyId;
    var secret := Prefix(AwsSecretAccessKey) + creds.secretAccessKey;
    var token := Prefix(AwsSessionToken) + creds.sessionToken;
    var withAccess := Set(env, AwsAccessKeyId, creds.accessKeyId);
    var withKeys := Set(withAccess, AwsSecretAccessKey, creds.secretAccessKey);
    var withToken := if creds.sessionToken != "" then Set(withKeys, AwsSessionToken, creds.sessionToken) else withKeys;
    assert access == withAccess[|withAccess| - 1];
    SetKeepsOtherEntry(withAccess, AwsSecretAccessKey, creds.secretAccessKey, AwsAccessKeyId, access);
    assert secret == withKeys[|withKeys| - 1];
    if creds.sessionToken != "" {
      SetKeepsOtherEntry(withKeys, AwsSessionToken, creds.sessionToken, AwsAccessKeyId, access);
      SetKeepsOtherEntry(withKeys, AwsSessionToken, creds.sessionToken, AwsSecretAccessKey, secret);
      assert token == withToken[|withToken| - 1];
    }
    if creds.canExpire {
      var expiry := formatTime(creds.expires);
      SetKeepsOtherEntry(withToken, AwsCredentialExpiration, expiry, AwsAccessKeyId, access);
      SetKeepsOtherEntry(withToken, AwsCredentialExpiration, expiry, AwsSecretAccessKey, secret);
      if creds.sessionToken != "" {
        SetKeepsOtherEntry(withToken, AwsCredentialExpiration, expiry, AwsSessionToken, token);
      }
    }
  }

  /**
   * Whatever the incoming environment holds, the subprocess environment
   * contains `AWS_VAULT=<profile>`, the region entries when a region is given,
   * the key pair, the session token when non-empty, and the formatted expiry
   * when the credentials can expire.
   */
  lemma ExecEnvironmentHolds(env: Environ, profileName: string, region: string,
                             creds: Credentials, formatTime: Time -> string)
    ensures var r := ExecEnvironment(env, profileName, region, creds, formatTime);
      && Prefix(AwsVault) + profileName in r
      && (region != "" ==> Prefix(AwsRegion) + region in r && Prefix(AwsDefaultRegion) + region in r)
      && Prefix(AwsAccessKeyId) + creds.accessKeyId in r
      && Prefix(AwsSecretAccessKey) + creds.secretAccessKey in r
      && (creds.sessionToken != "" ==> Prefix(AwsSessionToken) + creds.sessionToken in r)
      && (creds.canExpire ==> Prefix(AwsCredentialExpiration) + formatTime(creds.expires) in r)
  {
    var base := UpdateEnvForAwsVault(env, profileName, region);
    UpdateEnvHolds(env, profileName, region);
    SetCredentialsHolds(base, creds, formatTime);
    SetCredentialsKeepsBase(base, creds, formatTime, AwsVault, Prefix(AwsVault) + profileName);
    if region != "" {
      SetCredentialsKeepsBase(base, creds, formatTime, AwsRegion, Prefix(AwsRegion) + region);
      SetCredentialsKeepsBase(base, creds, formatTime, AwsDefaultRegion, Prefix(AwsDefaultRegion) + region);
    }
  }

  /** An entry for a name other than the credential variables stays in the list through SetCredentials. */
  lemma SetCredentialsKeepsBase(env: Environ, creds: Credentials, formatTime: Time -> string, k: string, e: string)
    requires k in [AwsVault, AwsRegion, AwsDefaultRegion] && Matches(e, k) && e in env
    ensures e in SetCredentials(env, creds, formatTime)
  {
    KnownKeysValid();
    KnownKeysDistinct();
    assert ValidKey(AwsAccessKeyId) && ValidKey(AwsSecretAccessKey) && ValidKey(AwsSessionToken) by {
      assert AwsAccessKeyId == ScrubbedKeys[0] && AwsSecretAccessKey == ScrubbedKeys[1];
      assert AwsSessionToken == ScrubbedKeys[2];
    }
    var withAccess := Set(env, AwsAccessKeyId, creds.accessKeyId);
    var withKeys := Set(withAccess, AwsSecretAccessKey, creds.secretAccessKey);
    var withToken := if creds.sessionToken != "" then Set(withKeys, AwsSessionToken, creds.sessionToken) else withKeys;
    SetKeepsOtherEntry(env, AwsAccessKeyId, creds.accessKeyId, k, e);
    SetKeepsOtherEntry(withAccess, AwsSecretAccessKey, creds.secretAccessKey, k, e);
    if creds.sessionToken != "" {
      SetKeepsOtherEntry(withKeys, AwsSessionToken, creds.sessionToken, k, e);
    }
    if creds.canExpire {
      SetKeepsOtherEntry(withToken, AwsCredentialExpiration, formatTime(creds.expires), k, e);
    }
  }

  /**
   * Per variable name, from the incoming environment: the key pair keep their
   * new entry plus whatever lay beyond the two earlier entries removed; the
   * session token gets a new entry only when the credentials carry one; the
   * expiry variable, which is not scrubbed, gets one only when the
   * credentials can expire; every other name ends as UpdateEnvForAwsVault
   * leaves it.
   */
  lemma ExecEnvironmentCount(env: Environ, profileName: string, region: string,
                             creds: Credentials, formatTime: Time -> string, k: string)
    requires ValidKey(k)
    ensures var n := Count(env, k);
      Count(ExecEnvironment(env, profileName, region, creds, formatTime), k) ==
        if k == AwsAccessKeyId || k == AwsSecretAccessKey then Dec(Dec(n)) + 1
        else if k == AwsSessionToken then (if creds.sessionToken != "" then Dec(Dec(n)) + 1 else Dec(n))
        else if k == AwsCredentialExpiration then (if creds.canExpire then Dec(n) + 1 else n)
        else UpdatedCount(n, k, region)
  {
    KnownKeysValid();
    KnownKeysDistinct();
    var n := Count(env, k);
    var base := UpdateEnvForAwsVault(env, profileName, region);
    UpdateEnvCount(env, profileName, region, k);
    SetCredentialsCount(base, creds, formatTime, k);
    if k == AwsAccessKeyId || k == AwsSecretAccessKey || k == AwsSessionToken {
      assert k in ScrubbedKeys;
      assert Count(base, k) == Dec(n);
    } else if k == AwsCredentialExpiration {
      assert Count(base, k) == n;
    }
  }

  /**
   * When the incoming environment holds `k` at most once: the key pair hold
   * the credentials' keys, the session token holds the credentials' token or
   * nothing, the expiry holds the formatted expiry when the credentials can
   * expire and otherwise keeps its incoming value, and every other name ends
   * as UpdateEnvForAwsVault leaves it.
   */
  lemma ExecEnvironmentLookup(env: Environ, profileName: string, region: string,
                              creds: Credentials, formatTime: Time -> string, k: string)
    requires ValidKey(k) && Count(env, k) <= 1
    ensures Lookup(ExecEnvironment(env, profileName, region, creds, formatTime), k) ==
      if k == AwsAccessKeyId then Some(creds.accessKeyId)
      else if k == AwsSecretAccessKey then Some(creds.secretAccessKey)
      else if k == AwsSessionToken then (if creds.sessionToken != "" then Some(creds.sessionToken) else None)
      else if k == AwsCredentialExpiration then
        (if creds.canExpire then Some(formatTime(creds.expires)) else Lookup(env, k))
      else UpdatedValue(Lookup(env, k), k, profileName, region)
  {
    var base := UpdateEnvForAwsVault(env, profileName, region);
    UpdateEnvCount(env, profileName, region, k);
    UpdatedCountAtMostOne(Count(env, k), k, region);
    UpdateEnvLookup(env, profileName, region, k);
    CredentialsOverUpdatedLookup(env, base, profileName, region, creds, formatTime, k);
  }

  /** The credential step of ExecEnvironmentLookup, for any list `base` that reads as UpdateEnvForAwsVault leaves `env`. */
  lemma CredentialsOverUpdatedLookup(env: Environ, base: Environ, profileName: string, region: string,
                                     creds: Credentials, formatTime: Time -> string, k: string)
    requires ValidKey(k) && Count(base, k) <= 1
    requires Lookup(base, k) == UpdatedValue(Lookup(env, k), k, profileName, region)
    ensures Lookup(SetCredentials(base, creds, formatTime), k) ==
      if k == AwsAccessKeyId then Some(creds.accessKeyId)
      else if k == AwsSecretAccessKey then Some(creds.secretAccessKey)
      else if k == AwsSessionToken then (if creds.sessionToken != "" then Some(creds.sessionToken) else None)
      else if k == AwsCredentialExpiration then
        (if creds.canExpire then Some(formatTime(creds.expires)) else Lookup(env, k))
      else UpdatedValue(Lookup(env, k), k, profileName, region)
  {
    KnownKeysDistinct();
    SetCredentialsLookup(base, creds, formatTime, k);
    if k == AwsSessionToken {
      assert k in ScrubbedKeys;
    }
  }
}
