/**
 * The process environment handed to a subprocess: a list of "key=value"
 * strings (cli/exec.go, type environ), with the two edits the command makes
 * to it, Unset and Set.
 *
 * Two reference views are used to state what the edits do:
 * - Count(env, key): how many entries are entries for `key`;
 * - Lookup(env, key): the value given by the first entry for `key`, which is
 *   the value a reader sees whenever the key occurs at most once.
 */
module Environ {
  import opened Wrappers

  /** A list of "key=value" strings, in order. */
  type Environ = seq<string>

  /** The text every entry for `key` starts with. */
  function Prefix(key: string): string {
    key + "="
  }

  /** Whether `entry` is an entry for `key`: it starts with `key` followed by '='. */
  predicate Matches(entry: string, key: string) {
    Prefix(key) <= entry
  }

  /** A variable name: it has no '=' in it. */
  predicate ValidKey(key: string) {
    '=' !in key
  }

  /** The number of entries for `key`. */
  function Count(env: Environ, key: string): (n: nat)
    ensures n <= |env|
    ensures n == 0 <==> forall j :: 0 <= j < |env| ==> !Matches(env[j], key)
  {
    if |env| == 0 then 0
    else (if Matches(env[0], key) then 1 else 0) + Count(env[1..], key)
  }

  /** One less, but never below zero: what removing one entry does to a count. */
  function Dec(n: nat): nat {
    if n == 0 then 0 else n - 1
  }

  /** The index of the first entry for `key` at or after `from`. */
  function FirstMatchFrom(env: Environ, key: string, from: nat): (r: Option<nat>)
    requires from <= |env|
    ensures r.Some? ==> from <= r.value < |env| && Matches(env[r.value], key)
    ensures r.Some? ==> forall j :: from <= j < r.value ==> !Matches(env[j], key)
    ensures r.None? ==> forall j :: from <= j < |env| ==> !Matches(env[j], key)
    decreases |env| - from
  {
    if from == |env| then None
    else if Matches(env[from], key) then Some(from)
    else FirstMatchFrom(env, key, from + 1)
  }

  /** The index of the first entry for `key`, the one the scan in Unset stops at. */
  function FirstMatch(env: Environ, key: string): (r: Option<nat>)
    ensures r.Some? ==> r.value < |env| && Matches(env[r.value], key)
    ensures r.Some? ==> forall j :: 0 <= j < r.value ==> !Matches(env[j], key)
    ensures r.None? <==> Count(env, key) == 0
  {
    FirstMatchFrom(env, key, 0)
  }

  /**
   * Removes the first entry for `key` by moving the last entry into its slot
   * and dropping the last slot. Later entries for `key` stay.
   */
  function Unset(env: Environ, key: string): (r: Environ)
    ensures FirstMatch(env, key).None? ==> r == env
    ensures FirstMatch(env, key).Some? ==>
      var i := FirstMatch(env, key).value;
      && |r| == |env| - 1
      && (i < |r| ==> r[i] == env[|env| - 1])
      && forall j :: 0 <= j < |r| && j != i ==> r[j] == env[j]
  {
    match FirstMatch(env, key)
    case None => env
    case Some(i) => env[i := env[|env| - 1]][..|env| - 1]
  }

  /** Unset, written as the scan that stops at the first entry for `key`. */
  method UnsetInPlace(env: Environ, key: string) returns (r: Environ)
    ensures r == Unset(env, key)
  {
    r := env;
    var i := 0;
    while i < |r|
      invariant i <= |r| && r == env
      invariant forall j :: 0 <= j < i ==> !Matches(env[j], key)
    {
      if Prefix(key) <= r[i] {
        r := r[i := r[|r| - 1]];
        r := r[..|r| - 1];
        return;
      }
      i := i + 1;
    }
  }

  /** Removes the first entry for `key`, then appends "key=val". */
  function Set(env: Environ, key: string, val: string): (r: Environ)
    ensures |r| == |env| + 1 - (if Count(env, key) > 0 then 1 else 0)
    ensures |r| > 0 && r[|r| - 1] == Prefix(key) + val
    ensures Matches(r[|r| - 1], key)
  {
    Unset(env, key) + [Prefix(key) + val]
  }

  /** The value of the first entry for `key`, if there is one. */
  function Lookup(env: Environ, key: string): (r: Option<string>)
    ensures r.None? <==> Count(env, key) == 0
    ensures r.Some? ==> Prefix(key) + r.value in env
  {
    match FirstMatch(env, key)
    case None => None
    case Some(i) =>
      assert env[i] == Prefix(key) + env[i][|Prefix(key)|..];
      Some(env[i][|Prefix(key)|..])
  }

  // ---------------------------------------------------------------------
  // Keys

  /** Two different variable names never claim the same entry. */
  lemma DistinctKeysDisjoint(entry: string, k1: string, k2: string)
    requires ValidKey(k1) && ValidKey(k2) && k1 != k2
    ensures Matches(entry, k1) ==> !Matches(entry, k2)
  {
    if Matches(entry, k1) {
      assert entry[..|k1| + 1] == Prefix(k1);
      if |k1| < |k2| {
        assert entry[|k1|] == '=';
        assert k2[|k1|] != '=';
        assert Prefix(k2)[|k1|] != entry[|k1|];
      } else if |k2| < |k1| {
        assert entry[|k2|] == k1[|k2|] != '=';
        assert Prefix(k2)[|k2|] == '=';
      } else {
        assert exists m :: 0 <= m < |k1| && k1[m] != k2[m];
        var m :| 0 <= m < |k1| && k1[m] != k2[m];
        assert entry[m] == k1[m];
        assert Prefix(k2)[m] != entry[m];
      }
    }
  }

  // ---------------------------------------------------------------------
  // Counting

  lemma {:induction false} CountAppend(a: Environ, b: Environ, key: string)
    ensures Count(a + b, key) == Count(a, key) + Count(b, key)
  {
    if |a| == 0 {
      assert a + b == b;
    } else {
      assert (a + b)[1..] == a[1..] + b;
      CountAppend(a[1..], b, key);
    }
  }

  lemma CountSingle(e: string, key: string)
    ensures Count([e], key) == if Matches(e, key) then 1 else 0
  {
  }

  /** The shape of Unset's result when it removes index `i`. */
  lemma UnsetShape(env: Environ, key: string, i: nat)
    requires FirstMatch(env, key) == Some(i)
    ensures i < |env| - 1 ==>
      && env == env[..i] + [env[i]] + env[i + 1..|env| - 1] + [env[|env| - 1]]
      && Unset(env, key) == env[..i] + [env[|env| - 1]] + env[i + 1..|env| - 1]
    ensures i == |env| - 1 ==>
      && env == env[..i] + [env[i]]
      && Unset(env, key) == env[..i]
  {
  }

  /**
   * Unset removes exactly one occurrence of the first entry for `key` and
   * keeps every other entry, with its multiplicity.
   */
  lemma UnsetMultiset(env: Environ, key: string)
    ensures FirstMatch(env, key).None? ==> multiset(Unset(env, key)) == multiset(env)
    ensures FirstMatch(env, key).Some? ==>
      multiset(Unset(env, key)) + multiset{env[FirstMatch(env, key).value]} == multiset(env)
  {
    match FirstMatch(env, key)
    case None =>
    case Some(i) =>
      UnsetShape(env, key, i);
  }

  /** An entry that is not for `key` survives Unset(key). */
  lemma UnsetKeeps(env: Environ, key: string, e: string)
    requires !Matches(e, key)
    ensures multiset(Unset(env, key))[e] == multiset(env)[e]
  {
    UnsetMultiset(env, key);
  }

  /** Unset changes the count of any key by the one entry it removes. */
  lemma UnsetCount(env: Environ, key: string, k: string)
    ensures Count(Unset(env, key), k) ==
      Count(env, k) - (if FirstMatch(env, key).Some? && Matches(env[FirstMatch(env, key).value], k) then 1 else 0)
  {
    match FirstMatch(env, key)
    case None =>
    case Some(i) =>
      var n := |env|;
      UnsetShape(env, key, i);
      CountSingle(env[i], k);
      CountSingle(env[n - 1], k);
      if i < n - 1 {
        var a, b := env[..i], env[i + 1..n - 1];
        CountAppend(a + [env[i]] + b, [env[n - 1]], k);
        CountAppend(a + [env[i]], b, k);
        CountAppend(a, [env[i]], k);
        CountAppend(a + [env[n - 1]], b, k);
        CountAppend(a, [env[n - 1]], k);
      } else {
        CountAppend(env[..i], [env[i]], k);
      }
  }

  /** Per variable name: Unset(key) removes one entry for `key` and none for any other name. */
  lemma UnsetCountByKey(env: Environ, key: string, k: string)
    requires ValidKey(key) && ValidKey(k)
    ensures Count(Unset(env, key), k) == if k == key then Dec(Count(env, k)) else Count(env, k)
  {
    UnsetCount(env, key, k);
    if k != key && FirstMatch(env, key).Some? {
      DistinctKeysDisjoint(env[FirstMatch(env, key).value], key, k);
    }
  }

  /** Set(key) leaves one fewer earlier entry for `key`, plus the new one; other names are untouched. */
  lemma SetCountByKey(env: Environ, key: string, val: string, k: string)
    requires ValidKey(key) && ValidKey(k)
    ensures Count(Set(env, key, val), k) == if k == key then Dec(Count(env, k)) + 1 else Count(env, k)
  {
    UnsetCountByKey(env, key, k);
    CountAppend(Unset(env, key), [Prefix(key) + val], k);
    CountSingle(Prefix(key) + val, k);
    if k != key {
      DistinctKeysDisjoint(Prefix(key) + val, key, k);
    }
  }

  /** An entry that is not for `key` survives Set(key), with its multiplicity. */
  lemma SetKeeps(env: Environ, key: string, val: string, e: string)
    requires !Matches(e, key)
    ensures multiset(Set(env, key, val))[e] == multiset(env)[e]
  {
    UnsetKeeps(env, key, e);
    assert e != Prefix(key) + val;
  }

  /** An entry for another variable name stays in the list through Set(key), whatever else the list holds. */
  lemma SetKeepsOtherEntry(env: Environ, key: string, val: string, k: string, e: string)
    requires ValidKey(key) && ValidKey(k) && k != key && Matches(e, k) && e in env
    ensures e in Set(env, key, val)
  {
    DistinctKeysDisjoint(e, k, key);
    SetKeeps(env, key, val, e);
    assert multiset(env)[e] > 0;
  }

  /**
   * Set replaces the entry for `key` only when there was at most one: with two
   * or more earlier entries, at least one of them survives before the new one.
   */
  lemma SetKeepsLaterDuplicates(env: Environ, key: string, val: string)
    requires ValidKey(key) && Count(env, key) >= 2
    ensures Count(Set(env, key, val), key) == Count(env, key)
    ensures exists j :: 0 <= j < |Set(env, key, val)| - 1 && Matches(Set(env, key, val)[j], key)
  {
    SetCountByKey(env, key, val, key);
    var r := Set(env, key, val);
    var u := Unset(env, key);
    assert r == u + [Prefix(key) + val];
    UnsetCountByKey(env, key, key);
    var j := FirstMatch(u, key).value;
    assert r[j] == u[j];
  }

  /** The behaviour above on a concrete environment. */
  lemma SetKeepsLaterDuplicatesExample()
    ensures Set(["K=1", "K=2"], "K", "3") == ["K=2", "K=3"]
    ensures Lookup(Set(["K=1", "K=2"], "K", "3"), "K") == Some("2")
  {
    var env := ["K=1", "K=2"];
    assert Matches(env[0], "K");
    assert FirstMatch(env, "K") == Some(0);
    assert Unset(env, "K") == ["K=2"];
    assert Prefix("K") + "3" == "K=3";
  }

  // ---------------------------------------------------------------------
  // Looking values up

  /** With one entry for `key`, any entry for `key` in the list gives the value Lookup returns. */
  lemma LookupUnique(env: Environ, key: string, val: string)
    requires Count(env, key) == 1 && Prefix(key) + val in env
    ensures Lookup(env, key) == Some(val)
  {
  }

  /** Lookup of `k` is unchanged by a step that keeps the entries for `k` and their count, when there is at most one. */
  lemma LookupTransfer(env: Environ, env': Environ, k: string)
    requires Count(env, k) <= 1 && Count(env', k) == Count(env, k)
    requires forall e :: Matches(e, k) && e in env ==> e in env'
    ensures Lookup(env', k) == Lookup(env, k)
  {
  }

  /** Unset(key), for a key that occurs at most once, removes its value and keeps every other name's. */
  lemma UnsetLookupByKey(env: Environ, key: string, k: string)
    requires ValidKey(key) && ValidKey(k) && Count(env, k) <= 1
    ensures Lookup(Unset(env, key), k) == if k == key then None else Lookup(env, k)
  {
    UnsetCountByKey(env, key, k);
    if k != key {
      forall e | Matches(e, k) && e in env
        ensures e in Unset(env, key)
      {
        DistinctKeysDisjoint(e, k, key);
        UnsetKeeps(env, key, e);
      }
      LookupTransfer(env, Unset(env, key), k);
    }
  }

  /** Set(key, val), for a key that occurs at most once, gives `key` the value `val` and keeps every other name's. */
  lemma SetLookupByKey(env: Environ, key: string, val: string, k: string)
    requires ValidKey(key) && ValidKey(k) && Count(env, k) <= 1
    ensures Lookup(Set(env, key, val), k) == if k == key then Some(val) else Lookup(env, k)
  {
    SetCountByKey(env, key, val, k);
    var r := Set(env, key, val);
    if k == key {
      assert r[|r| - 1] == Prefix(key) + val;
      LookupUnique(r, key, val);
    } else {
      forall e | Matches(e, k) && e in env
        ensures e in r
      {
        DistinctKeysDisjoint(e, k, key);
        SetKeeps(env, key, val, e);
      }
      LookupTransfer(env, r, k);
    }
  }
}
