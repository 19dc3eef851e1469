/** Permission maps: an ordered association list from permission key to
    "granted" (`true`) or "explicitly denied" (`false`), keys unique, as a PHP
    array stores a user's or a role's `permissions` column. */
module Permissions {

  datatype Grant = Grant(key: string, allowed: bool)

  predicate DistinctKeys(m: seq<Grant>)
  {
    forall i, j :: 0 <= i < j < |m| ==> m[i].key != m[j].key
  }

  type PermissionMap = m: seq<Grant> | DistinctKeys(m) witness []

  /** `k` is a key of `m`, with whatever value. */
  ghost predicate HasKey(m: seq<Grant>, k: string)
  {
    exists i :: 0 <= i < |m| && m[i].key == k
  }

  /** `k` is present in `m` with the value `true`. */
  ghost predicate Granted(m: seq<Grant>, k: string)
  {
    exists i :: 0 <= i < |m| && m[i].key == k && m[i].allowed
  }

  lemma GrantedCons(m: seq<Grant>, k: string)
    requires m != []
    ensures Granted(m, k) <==> (m[0].key == k && m[0].allowed) || Granted(m[1..], k)
  {
    if Granted(m, k) {
      var i :| 0 <= i < |m| && m[i].key == k && m[i].allowed;
      if i > 0 { assert m[1..][i - 1] == m[i]; }
    }
    if Granted(m[1..], k) {
      var i :| 0 <= i < |m[1..]| && m[1..][i].key == k && m[1..][i].allowed;
      assert m[i + 1] == m[1..][i];
    }
  }

  /** `array_keys(array_filter(m))`: the keys whose value is truthy, in map
      order; explicit denials are dropped. */
  function TruthyKeys(m: seq<Grant>): (r: seq<string>)
    ensures |r| <= |m|
    ensures forall k :: k in r <==> Granted(m, k)
  {
    if m == [] then []
    else
      var rest := TruthyKeys(m[1..]);
      assert forall k :: Granted(m, k) <==> (m[0].key == k && m[0].allowed) || Granted(m[1..], k) by {
        forall k ensures Granted(m, k) <==> (m[0].key == k && m[0].allowed) || Granted(m[1..], k) {
          GrantedCons(m, k);
        }
      }
      (if m[0].allowed then [m[0].key] else []) + rest
  }

  /** The truthy keys of a map with unique keys are themselves unique. */
  lemma {:induction false} TruthyKeysDistinct(m: PermissionMap)
    ensures forall i, j :: 0 <= i < j < |TruthyKeys(m)| ==> TruthyKeys(m)[i] != TruthyKeys(m)[j]
    decreases |m|
  {
    if m != [] {
      var tail: PermissionMap := m[1..];
      TruthyKeysDistinct(tail);
      if m[0].allowed {
        assert m[0].key !in TruthyKeys(tail) by {
          forall i | 0 <= i < |tail| ensures tail[i].key != m[0].key { assert tail[i] == m[i + 1]; }
        }
      }
    }
  }

  /** Position of the entry with key `k` (the first one, though a permission
      map holds at most one), or -1. */
  function KeyIndex(m: seq<Grant>, k: string): (i: int)
    ensures -1 <= i < |m|
    ensures i >= 0 ==> m[i].key == k
    ensures i < 0 <==> !HasKey(m, k)
  {
    if m == [] then -1
    else if m[0].key == k then 0
    else
      var i := KeyIndex(m[1..], k);
      HasKeyCons(m, k);
      if i < 0 then -1 else i + 1
  }

  /** A granted key of the tail sits one place further on in the whole map. */
  lemma KeyIndexShift(m: PermissionMap, k: string)
    requires m != [] && Granted(m[1..], k)
    ensures 0 <= KeyIndex(m[1..], k) && KeyIndex(m, k) == KeyIndex(m[1..], k) + 1
  {
    var j :| 0 <= j < |m[1..]| && m[1..][j].key == k && m[1..][j].allowed;
    assert m[j + 1] == m[1..][j];
  }

  lemma KeyIndexStep(m: PermissionMap, rest: seq<string>, i: nat)
    requires m != [] && rest == TruthyKeys(m[1..]) && i < |rest|
    ensures 0 <= KeyIndex(m[1..], rest[i]) && KeyIndex(m, rest[i]) == KeyIndex(m[1..], rest[i]) + 1
  {
    assert rest[i] in rest;
    KeyIndexShift(m, rest[i]);
  }

  /** One entry in front: the granted keys of the tail, each one place
      further on, behind the head's key when that is granted. */
  lemma TruthyKeysShift(m: PermissionMap)
    requires m != []
    ensures m[0].allowed ==> TruthyKeys(m) == [m[0].key] + TruthyKeys(m[1..])
    ensures !m[0].allowed ==> TruthyKeys(m) == TruthyKeys(m[1..])
    ensures KeyIndex(m, m[0].key) == 0
    ensures forall i :: 0 <= i < |TruthyKeys(m[1..])| ==>
      0 <= KeyIndex(m[1..], TruthyKeys(m[1..])[i]) && KeyIndex(m, TruthyKeys(m[1..])[i]) == KeyIndex(m[1..], TruthyKeys(m[1..])[i]) + 1
  {
    var rest := TruthyKeys(m[1..]);
    forall i | 0 <= i < |rest| ensures 0 <= KeyIndex(m[1..], rest[i]) && KeyIndex(m, rest[i]) == KeyIndex(m[1..], rest[i]) + 1 {
      KeyIndexStep(m, rest, i);
    }
  }

  /** The entries of the granted keys of `m` lie in `m`. */
  predicate KeysHaveEntries(m: seq<Grant>)
  {
    forall i :: 0 <= i < |TruthyKeys(m)| ==> 0 <= KeyIndex(m, TruthyKeys(m)[i])
  }

  /** The granted keys of `m` are listed in the order of their entries. */
  predicate KeysInEntryOrder(m: seq<Grant>)
  {
    forall i, j :: 0 <= i < j < |TruthyKeys(m)| ==> KeyIndex(m, TruthyKeys(m)[i]) < KeyIndex(m, TruthyKeys(m)[j])
  }

  lemma KeysHaveEntriesCons(m: PermissionMap)
    requires m != [] && KeysHaveEntries(m[1..])
    ensures KeysHaveEntries(m)
  {
    TruthyKeysShift(m);
    var rest := TruthyKeys(m[1..]);
    var r := TruthyKeys(m);
    if m[0].allowed {
      forall i | 0 <= i < |r| ensures 0 <= KeyIndex(m, r[i]) {
        if i > 0 { assert r[i] == rest[i - 1]; }
      }
    }
  }

  lemma EntryOrderPair(m: PermissionMap, i: nat, j: nat)
    requires m != [] && m[0].allowed && KeysHaveEntries(m[1..]) && KeysInEntryOrder(m[1..])
    requires i < j < |TruthyKeys(m)|
    ensures KeyIndex(m, TruthyKeys(m)[i]) < KeyIndex(m, TruthyKeys(m)[j])
  {
    TruthyKeysShift(m);
    var rest := TruthyKeys(m[1..]);
    assert TruthyKeys(m)[j] == rest[j - 1];
    if i > 0 { assert TruthyKeys(m)[i] == rest[i - 1]; }
  }

  lemma KeysInEntryOrderCons(m: PermissionMap)
    requires m != [] && KeysHaveEntries(m[1..]) && KeysInEntryOrder(m[1..])
    ensures KeysInEntryOrder(m)
  {
    TruthyKeysShift(m);
    if m[0].allowed {
      forall i, j | 0 <= i < j < |TruthyKeys(m)| ensures KeyIndex(m, TruthyKeys(m)[i]) < KeyIndex(m, TruthyKeys(m)[j]) {
        EntryOrderPair(m, i, j);
      }
    }
  }

  /** `array_filter` keeps the map's order: the granted keys are listed in the
      order of their entries. */
  lemma {:induction false} TruthyKeysInMapOrder(m: PermissionMap)
    ensures forall i :: 0 <= i < |TruthyKeys(m)| ==> 0 <= KeyIndex(m, TruthyKeys(m)[i])
    ensures forall i, j :: 0 <= i < j < |TruthyKeys(m)| ==> KeyIndex(m, TruthyKeys(m)[i]) < KeyIndex(m, TruthyKeys(m)[j])
    decreases |m|
  {
    if m != [] {
      var tail: PermissionMap := m[1..];
      TruthyKeysInMapOrder(tail);
      assert KeysHaveEntries(tail) && KeysInEntryOrder(tail);
      KeysHaveEntriesCons(m);
      KeysInEntryOrderCons(m);
      assert KeysHaveEntries(m) && KeysInEntryOrder(m);
    }
  }

  lemma HasKeyCons(m: seq<Grant>, k: string)
    requires m != []
    ensures HasKey(m, k) <==> m[0].key == k || HasKey(m[1..], k)
  {
    if HasKey(m, k) {
      var i :| 0 <= i < |m| && m[i].key == k;
      if i > 0 { assert m[1..][i - 1] == m[i]; }
    }
    if HasKey(m[1..], k) {
      var i :| 0 <= i < |m[1..]| && m[1..][i].key == k;
      assert m[i + 1] == m[1..][i];
    }
  }

  /** An entry whose key the rest does not hold can go in front. */
  lemma ConsDistinct(g: Grant, rest: PermissionMap)
    requires !HasKey(rest, g.key)
    ensures DistinctKeys([g] + rest)
  {
    var r := [g] + rest;
    forall i, j | 0 <= i < j < |r| ensures r[i].key != r[j].key {
      assert r[j] == rest[j - 1];
      if i > 0 { assert r[i] == rest[i - 1]; }
    }
  }

  /** Appending a key that is not there yet. */
  lemma SetNew(m: PermissionMap, k: string, v: bool)
    requires !HasKey(m, k)
    ensures DistinctKeys(m + [Grant(k, v)])
    ensures Granted(m + [Grant(k, v)], k) == v && HasKey(m + [Grant(k, v)], k)
    ensures forall k' :: k' != k ==> (Granted(m + [Grant(k, v)], k') <==> Granted(m, k'))
    ensures forall k' :: k' != k ==> (HasKey(m + [Grant(k, v)], k') <==> HasKey(m, k'))
  {
    var r := m + [Grant(k, v)];
    assert r[|m|].key == k;
    assert forall j :: 0 <= j < |m| ==> r[j] == m[j];
  }

  /** Sentinel's `addPermission`: a key the map does not hold is appended as
      granted; a key it holds keeps its value, an explicit denial included. */
  function AddPermission(m: PermissionMap, k: string): (r: PermissionMap)
    ensures HasKey(r, k)
    ensures HasKey(m, k) ==> r == m
    ensures !HasKey(m, k) ==> Granted(r, k) && |r| == |m| + 1
    ensures forall k' :: k' != k ==> (Granted(r, k') <==> Granted(m, k'))
    ensures forall k' :: k' != k ==> (HasKey(r, k') <==> HasKey(m, k'))
  {
    if exists i :: 0 <= i < |m| && m[i].key == k then m
    else
      SetNew(m, k, true);
      m + [Grant(k, true)]
  }

  /** Sentinel's `removePermission`: the key's entry is taken out, whatever its
      value; the other entries keep their order. */
  function RemovePermission(m: PermissionMap, k: string): (r: PermissionMap)
    ensures !HasKey(r, k)
    ensures !HasKey(m, k) ==> r == m
    ensures |r| <= |m|
    ensures forall k' :: k' != k ==> (Granted(r, k') <==> Granted(m, k'))
    ensures forall k' :: k' != k ==> (HasKey(r, k') <==> HasKey(m, k'))
    decreases |m|
  {
    if m == [] then []
    else
      var tail: PermissionMap := m[1..];
      var rest := RemovePermission(tail, k);
      assert forall k' :: HasKey(m, k') <==> m[0].key == k' || HasKey(tail, k') by {
        forall k' ensures HasKey(m, k') <==> m[0].key == k' || HasKey(tail, k') { HasKeyCons(m, k'); }
      }
      assert forall k' :: Granted(m, k') <==> (m[0].key == k' && m[0].allowed) || Granted(tail, k') by {
        forall k' ensures Granted(m, k') <==> (m[0].key == k' && m[0].allowed) || Granted(tail, k') { GrantedCons(m, k'); }
      }
      if m[0].key == k then rest
      else
        assert !HasKey(tail, m[0].key) by {
          forall j | 0 <= j < |tail| ensures tail[j].key != m[0].key { assert tail[j] == m[j + 1]; }
        }
        ConsDistinct(m[0], rest);
        var r: PermissionMap := [m[0]] + rest;
        assert r[1..] == rest;
        assert forall k' :: HasKey(r, k') <==> m[0].key == k' || HasKey(rest, k') by {
          forall k' ensures HasKey(r, k') <==> m[0].key == k' || HasKey(rest, k') { HasKeyCons(r, k'); }
        }
        assert forall k' :: Granted(r, k') <==> (m[0].key == k' && m[0].allowed) || Granted(rest, k') by {
          forall k' ensures Granted(r, k') <==> (m[0].key == k' && m[0].allowed) || Granted(rest, k') { GrantedCons(r, k'); }
        }
        assert !HasKey(m, k) ==> r == m by {
          if !HasKey(m, k) { assert m == [m[0]] + tail; }
        }
        r
  }

  /** `addPermission` when granting, `removePermission` when revoking. */
  function Change(m: PermissionMap, k: string, grant: bool): (r: PermissionMap)
    ensures grant ==> HasKey(r, k) && (HasKey(m, k) ==> r == m) && (!HasKey(m, k) ==> Granted(r, k))
    ensures !grant ==> !HasKey(r, k)
    ensures forall k' :: k' != k ==> (Granted(r, k') <==> Granted(m, k')) && (HasKey(r, k') <==> HasKey(m, k'))
  {
    if grant then AddPermission(m, k) else RemovePermission(m, k)
  }

  /** The `foreach ... addPermission` / `removePermission` loop: each key of
      `ks` in turn. */
  function SetAll(m: PermissionMap, ks: seq<string>, grant: bool): (r: PermissionMap)
    decreases |ks|
  {
    if ks == [] then m else Change(SetAll(m, ks[..|ks| - 1], grant), ks[|ks| - 1], grant)
  }

  /** After the loop an unlisted key keeps its presence and its value. After
      granting, every listed key is present, and granted exactly when it was
      granted before or was not there at all (a stored denial stays). After
      revoking, no listed key is present. */
  lemma {:induction false} SetAllEffect(m: PermissionMap, ks: seq<string>, grant: bool)
    ensures forall k :: k !in ks ==> (Granted(SetAll(m, ks, grant), k) <==> Granted(m, k))
    ensures forall k :: k !in ks ==> (HasKey(SetAll(m, ks, grant), k) <==> HasKey(m, k))
    ensures grant ==> forall k :: k in ks ==>
      HasKey(SetAll(m, ks, grant), k) && (Granted(SetAll(m, ks, grant), k) <==> Granted(m, k) || !HasKey(m, k))
    ensures !grant ==> forall k :: k in ks ==> !HasKey(SetAll(m, ks, grant), k)
    decreases |ks|
  {
    if ks != [] {
      var init := ks[..|ks| - 1];
      SetAllEffect(m, init, grant);
      assert ks == init + [ks[|ks| - 1]];
    }
  }
}
