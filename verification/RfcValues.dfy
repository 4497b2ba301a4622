/** What a JSON text denotes, as a relation between syntax trees and values that says nothing of how the value is
    built. */
module RfcValues {
  import opened Strings
  import opened Json
  import opened JsonGrammar
  import opened RfcStrings

  /** A value `v` for the tree `t`: arrays member by member, objects by `ObjectMeans`. Numbers are the C
      library's. */
  ghost predicate Means(F: Floats, t: Tree, v: Value)
    decreases t, 1
  {
    match t
    case TNull => v == Null
    case TTrue => v == Bool(true)
    case TFalse => v == Bool(false)
    case TNum(token) => v == Num(F.read(token))
    case TStr(items) => v.Str? && Denotes(items, v.s)
    case TArr(_, es) => v.Arr? && |v.items| == |es| && forall k | 0 <= k < |es| :: Means(F, es[k].tree, v.items[k])
    case TObj(_, ms) => v.Obj? && ObjectMeans(F, ms, v.fields)
  }

  /** A sorted map that has an entry for every member's key and no other, each with the value of the last member
      of that key. */
  ghost predicate ObjectMeans(F: Floats, ms: seq<Member>, fields: seq<Field>)
    decreases ms, 1
  {
    SortedKeys(fields) && KeysKept(ms, fields) && EntriesLast(F, ms, fields)
  }

  ghost predicate KeysKept(ms: seq<Member>, fields: seq<Field>) {
    forall k | 0 <= k < |ms| :: exists j :: 0 <= j < |fields| && Denotes(ms[k].key, fields[j].key)
  }

  ghost predicate EntriesLast(F: Floats, ms: seq<Member>, fields: seq<Field>)
    decreases ms, 0
  {
    forall j | 0 <= j < |fields| ::
      exists k :: 0 <= k < |ms| && LastOf(ms, k, fields[j].key) && Means(F, ms[k].elem.tree, fields[j].value)
  }

  ghost predicate LastOf(ms: seq<Member>, k: nat, key: Bytes)
    requires k < |ms|
  {
    Denotes(ms[k].key, key) && forall m | k < m < |ms| :: !Denotes(ms[m].key, key)
  }

  lemma {:induction false} FieldsSorted(F: Floats, ms: seq<Member>, acc: seq<Field>)
    requires ValidMembers(ms) && SortedKeys(acc)
    ensures SortedKeys(Fields(F, ms, acc))
    decreases ms, 0
  {
    hide SortedKeys;
    if ms != [] {
      var key, v := StringBytes(ms[0].key), Meaning(F, ms[0].elem.tree);
      SetKeySorted(acc, key, v);
      FieldsSorted(F, ms[1..], SetKey(acc, key, v));
    }
  }

  lemma {:induction false} MembersValid(ms: seq<Member>)
    requires ValidMembers(ms)
    ensures forall k | 0 <= k < |ms| :: ValidItems(ms[k].key) && ValidTree(ms[k].elem.tree)
    decreases |ms|
  {
    if ms != [] {
      MembersValid(ms[1..]);
      assert forall k | 0 < k < |ms| :: ms[k] == ms[1..][k - 1];
    }
  }

  lemma {:induction false} ElemsValid(es: seq<Elem>)
    requires ValidElems(es)
    ensures forall k | 0 <= k < |es| :: ValidTree(es[k].tree)
    decreases |es|
  {
    if es != [] {
      ElemsValid(es[1..]);
      assert forall k | 0 < k < |es| :: es[k] == es[1..][k - 1];
    }
  }

  lemma {:induction false} MeaningsAre(F: Floats, es: seq<Elem>)
    requires ValidElems(es)
    ensures |Meanings(F, es)| == |es|
    ensures forall k | 0 <= k < |es| :: ValidTree(es[k].tree) && Meanings(F, es)[k] == Meaning(F, es[k].tree)
    decreases |es|
  {
    ElemsValid(es);
    if es != [] {
      MeaningsAre(F, es[1..]);
      assert forall k | 0 < k < |es| :: es[k] == es[1..][k - 1];
    }
  }

  /** Member `k` is the last of the key, by the bytes the parser gives keys. */
  predicate IsLast(ms: seq<Member>, k: nat, key: Bytes)
    requires k < |ms| && forall m | 0 <= m < |ms| :: ValidItems(ms[m].key)
  {
    StringBytes(ms[k].key) == key && forall m | k < m < |ms| :: StringBytes(ms[m].key) != key
  }

  lemma LastOfIs(ms: seq<Member>, k: nat, key: Bytes)
    requires k < |ms| && forall m | 0 <= m < |ms| :: ValidItems(ms[m].key)
    ensures LastOf(ms, k, key) <==> IsLast(ms, k, key)
  {
    forall m | 0 <= m < |ms| ensures Denotes(ms[m].key, key) <==> key == StringBytes(ms[m].key) {
      DenotesIs(ms[m].key, key);
    }
  }

  lemma {:induction false} LastMemberIs(F: Floats, ms: seq<Member>, key: Bytes)
    requires ValidMembers(ms)
    ensures forall k | 0 <= k < |ms| :: ValidItems(ms[k].key) && ValidTree(ms[k].elem.tree)
    ensures match LastMember(F, ms, key)
            case None => forall k | 0 <= k < |ms| :: StringBytes(ms[k].key) != key
            case Some(v) => exists k :: 0 <= k < |ms| && IsLast(ms, k, key) && v == Meaning(F, ms[k].elem.tree)
    decreases |ms|
  {
    hide StringBytes;
    hide Meaning;
    MembersValid(ms);
    if ms != [] {
      var rest := ms[1..];
      LastMemberIs(F, rest, key);
      assert forall k | 0 < k < |ms| :: ms[k] == rest[k - 1];
      match LastMember(F, rest, key)
      case Some(v) =>
        var k :| 0 <= k < |rest| && IsLast(rest, k, key) && v == Meaning(F, rest[k].elem.tree);
        assert IsLast(ms, k + 1, key);
      case None =>
        if StringBytes(ms[0].key) == key { assert IsLast(ms, 0, key); }
    }
  }

  /** Only one member is the last of a key. */
  lemma LastOnce(ms: seq<Member>, k: nat, m: nat, key: Bytes)
    requires k < |ms| && m < |ms| && forall n | 0 <= n < |ms| :: ValidItems(ms[n].key)
    requires IsLast(ms, k, key) && IsLast(ms, m, key)
    ensures k == m
  {
  }

  /** The map the parser builds, looked up by key. */
  lemma FieldsByKey(F: Floats, ms: seq<Member>, key: Bytes)
    requires ValidMembers(ms)
    ensures SortedKeys(Fields(F, ms, [])) && Lookup(Fields(F, ms, []), key) == LastMember(F, ms, key)
  {
    hide LastMember;
    FieldsSorted(F, ms, []);
    FieldsLookup(F, ms, [], key);
  }

  lemma {:induction false} MeansIs(F: Floats, t: Tree, v: Value)
    requires ValidTree(t)
    ensures Means(F, t, v) <==> v == Meaning(F, t)
    decreases t, 1
  {
    hide Denotes;
    hide StringBytes;
    hide ObjectMeans;
    hide Fields;
    hide ValidItems;
    match t
    case TStr(items) =>
      if v.Str? { DenotesIs(items, v.s); }
    case TArr(_, es) =>
      MeaningsAre(F, es);
      if v.Arr? && |v.items| == |es| {
        forall k | 0 <= k < |es| ensures Means(F, es[k].tree, v.items[k]) <==> v.items[k] == Meaning(F, es[k].tree) {
          MeansIs(F, es[k].tree, v.items[k]);
        }
      }
    case TObj(_, ms) =>
      if v.Obj? { ObjectMeansIs(F, ms, v.fields); }
    case _ =>
  }

  /** For the trees below, the relation and the parser agree. */
  ghost predicate TreesMean(F: Floats, ms: seq<Member>) {
    && (forall k | 0 <= k < |ms| :: ValidTree(ms[k].elem.tree))
    && forall k, v | 0 <= k < |ms| :: Means(F, ms[k].elem.tree, v) <==> v == Meaning(F, ms[k].elem.tree)
  }

  /** A map with the right lookups is one the relation allows, when its values are. */
  lemma RightLookups(F: Floats, ms: seq<Member>, fields: seq<Field>)
    requires ValidMembers(ms) && SortedKeys(fields)
    requires forall key :: Lookup(fields, key) == LastMember(F, ms, key)
    requires TreesMean(F, ms)
    ensures ObjectMeans(F, ms, fields)
  {
    hide Means;
    hide Meaning;
    hide LastMember;
    hide LastOf;
    hide IsLast;
    hide SortedKeys;
    MembersValid(ms);
    forall k | 0 <= k < |ms| ensures exists j :: 0 <= j < |fields| && Denotes(ms[k].key, fields[j].key) {
      var key := StringBytes(ms[k].key);
      LastMemberIs(F, ms, key);
      LookupWhere(fields, key);
      DenotesIs(ms[k].key, key);
    }
    forall j | 0 <= j < |fields|
      ensures exists k :: 0 <= k < |ms| && LastOf(ms, k, fields[j].key) && Means(F, ms[k].elem.tree, fields[j].value)
    {
      var key := fields[j].key;
      LookupMember(fields, fields[j]);
      LastMemberIs(F, ms, key);
      var k :| 0 <= k < |ms| && IsLast(ms, k, key) && fields[j].value == Meaning(F, ms[k].elem.tree);
      LastOfIs(ms, k, key);
    }
  }

  lemma LastMemberAt(F: Floats, ms: seq<Member>, k: nat, key: Bytes)
    requires ValidMembers(ms) && k < |ms| && forall m | 0 <= m < |ms| :: ValidItems(ms[m].key)
    requires IsLast(ms, k, key)
    ensures ValidTree(ms[k].elem.tree) && LastMember(F, ms, key) == Some(Meaning(F, ms[k].elem.tree))
  {
    hide Meaning;
    hide LastMember;
    hide StringBytes;
    LastMemberIs(F, ms, key);
    if LastMember(F, ms, key).Some? {
      var m :| 0 <= m < |ms| && IsLast(ms, m, key) && LastMember(F, ms, key).value == Meaning(F, ms[m].elem.tree);
      LastOnce(ms, k, m, key);
    }
  }

  /** A map the relation allows has the right lookups. */
  lemma LookupsRight(F: Floats, ms: seq<Member>, fields: seq<Field>, key: Bytes)
    requires ValidMembers(ms) && ObjectMeans(F, ms, fields) && TreesMean(F, ms)
    ensures Lookup(fields, key) == LastMember(F, ms, key)
  {
    hide Means;
    hide Meaning;
    hide LastMember;
    hide LastOf;
    hide IsLast;
    hide Lookup;
    hide Denotes;
    hide SortedKeys;
    hide KeysKept;
    MembersValid(ms);
    LookupWhere(fields, key);
    if Lookup(fields, key).Some? {
      var j :| 0 <= j < |fields| && fields[j].key == key;
      LookupMember(fields, fields[j]);
      var k :| 0 <= k < |ms| && LastOf(ms, k, fields[j].key) && Means(F, ms[k].elem.tree, fields[j].value);
      LastOfIs(ms, k, key);
      LastMemberAt(F, ms, k, key);
    } else {
      NoneMissing(F, ms, fields, key);
    }
  }

  lemma NoneMissing(F: Floats, ms: seq<Member>, fields: seq<Field>, key: Bytes)
    requires ValidMembers(ms) && ObjectMeans(F, ms, fields)
    requires forall j | 0 <= j < |fields| :: fields[j].key != key
    ensures LastMember(F, ms, key) == None
  {
    hide Means;
    hide Meaning;
    hide LastMember;
    hide LastOf;
    hide Denotes;
    hide SortedKeys;
    hide EntriesLast;
    LastMemberIs(F, ms, key);
    if LastMember(F, ms, key).Some? {
      var m :| 0 <= m < |ms| && IsLast(ms, m, key) && LastMember(F, ms, key).value == Meaning(F, ms[m].elem.tree);
      var j :| 0 <= j < |fields| && Denotes(ms[m].key, fields[j].key);
      DenotesIs(ms[m].key, fields[j].key);
    }
  }

  lemma {:induction false} ObjectMeansIs(F: Floats, ms: seq<Member>, fields: seq<Field>)
    requires ValidMembers(ms)
    ensures ObjectMeans(F, ms, fields) <==> fields == Fields(F, ms, [])
    decreases ms, 0
  {
    hide Means;
    hide Meaning;
    hide ObjectMeans;
    hide Fields;
    hide SortedKeys;
    hide LastMember;
    MembersValid(ms);
    forall k, v | 0 <= k < |ms| ensures Means(F, ms[k].elem.tree, v) <==> v == Meaning(F, ms[k].elem.tree) {
      MeansIs(F, ms[k].elem.tree, v);
    }
    forall key ensures Lookup(Fields(F, ms, []), key) == LastMember(F, ms, key) { FieldsByKey(F, ms, key); }
    FieldsByKey(F, ms, "");
    RightLookups(F, ms, Fields(F, ms, []));
    if ObjectMeans(F, ms, fields) {
      forall key ensures Lookup(fields, key) == LastMember(F, ms, key) { LookupsRight(F, ms, fields, key); }
      ObjectSorted(F, ms, fields);
      SortedUnique(fields, Fields(F, ms, []));
    }
  }

  lemma ObjectSorted(F: Floats, ms: seq<Member>, fields: seq<Field>)
    requires ObjectMeans(F, ms, fields)
    ensures SortedKeys(fields)
  {
  }
}
