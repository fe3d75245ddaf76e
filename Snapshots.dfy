/**
 * The snapshot/diff engine: the fixed set of tracked fields of a pool
 * (what the adapter captures before and after a refresh) and the
 * field-by-field comparison that yields the changed field names in
 * declaration order.
 */
module Snapshots {

  /** A snapshot of the tracked fields of one pool (a `TpMainFields`).
      Live counters such as active or completed task counts are not tracked. */
  datatype MainFields = MainFields(
    threadPoolName: string,
    corePoolSize: int,
    maxPoolSize: int,
    keepAliveTime: int,
    queueType: string,
    queueCapacity: int,
    rejectType: string,
    threadPoolAliasName: string)

  /** The tracked fields, one constructor per field of `MainFields`. */
  datatype Field =
    | ThreadPoolName
    | CorePoolSize
    | MaxPoolSize
    | KeepAliveTime
    | QueueType
    | QueueCapacity
    | RejectType
    | ThreadPoolAliasName

  /** The fields in declaration order: the order in which a diff reports them. */
  const DeclarationOrder: seq<Field> :=
    [ThreadPoolName, CorePoolSize, MaxPoolSize, KeepAliveTime,
     QueueType, QueueCapacity, RejectType, ThreadPoolAliasName]

  /** The position of a field in the declaration order. */
  function Rank(f: Field): nat
  {
    match f
    case ThreadPoolName => 0
    case CorePoolSize => 1
    case MaxPoolSize => 2
    case KeepAliveTime => 3
    case QueueType => 4
    case QueueCapacity => 5
    case RejectType => 6
    case ThreadPoolAliasName => 7
  }

  /** The name under which a field is reported in a change notice. */
  function FieldName(f: Field): string
  {
    match f
    case ThreadPoolName => "threadPoolName"
    case CorePoolSize => "corePoolSize"
    case MaxPoolSize => "maxPoolSize"
    case KeepAliveTime => "keepAliveTime"
    case QueueType => "queueType"
    case QueueCapacity => "queueCapacity"
    case RejectType => "rejectType"
    case ThreadPoolAliasName => "threadPoolAliasName"
  }

  /** Do the two snapshots disagree on field `f`? */
  predicate Differs(a: MainFields, b: MainFields, f: Field)
  {
    match f
    case ThreadPoolName => a.threadPoolName != b.threadPoolName
    case CorePoolSize => a.corePoolSize != b.corePoolSize
    case MaxPoolSize => a.maxPoolSize != b.maxPoolSize
    case KeepAliveTime => a.keepAliveTime != b.keepAliveTime
    case QueueType => a.queueType != b.queueType
    case QueueCapacity => a.queueCapacity != b.queueCapacity
    case RejectType => a.rejectType != b.rejectType
    case ThreadPoolAliasName => a.threadPoolAliasName != b.threadPoolAliasName
  }

  /** A sequence of fields listed in strictly increasing declaration order. */
  predicate InOrder(fs: seq<Field>)
  {
    forall i, j :: 0 <= i < j < |fs| ==> Rank(fs[i]) < Rank(fs[j])
  }

  /** The declaration order lists every field once, by increasing rank. */
  lemma DeclarationOrderComplete()
    ensures InOrder(DeclarationOrder)
    ensures forall f :: f in DeclarationOrder
  {
    assert forall i :: 0 <= i < |DeclarationOrder| ==> Rank(DeclarationOrder[i]) == i;
    forall f ensures f in DeclarationOrder {
      assert Rank(f) < |DeclarationOrder| && DeclarationOrder[Rank(f)] == f;
    }
  }

  /** The fields of `fs` on which `a` and `b` disagree, in the order of `fs`. */
  function DiffOver(fs: seq<Field>, a: MainFields, b: MainFields): (r: seq<Field>)
    ensures forall f :: f in r <==> f in fs && Differs(a, b, f)
  {
    if fs == [] then []
    else (if Differs(a, b, fs[0]) then [fs[0]] else []) + DiffOver(fs[1..], a, b)
  }

  /** Keeping some of the fields of an ordered list keeps it ordered. */
  lemma {:induction false} DiffOverInOrder(fs: seq<Field>, a: MainFields, b: MainFields)
    requires InOrder(fs)
    ensures InOrder(DiffOver(fs, a, b))
  {
    if fs != [] {
      var rest := DiffOver(fs[1..], a, b);
      DiffOverInOrder(fs[1..], a, b);
      if Differs(a, b, fs[0]) {
        forall g | g in rest ensures Rank(fs[0]) < Rank(g) {
          var j :| 0 <= j < |fs[1..]| && fs[1..][j] == g;
          assert fs[j + 1] == g;
        }
        InOrderCons(fs[0], rest);
      } else {
        assert DiffOver(fs, a, b) == rest;
      }
    }
  }

  /** A field ranked below every field of an ordered list can go in front. */
  lemma InOrderCons(x: Field, rest: seq<Field>)
    requires InOrder(rest)
    requires forall g :: g in rest ==> Rank(x) < Rank(g)
    ensures InOrder([x] + rest)
  {
    var r := [x] + rest;
    forall i, j | 0 <= i < j < |r| ensures Rank(r[i]) < Rank(r[j]) {
      assert r[j] == rest[j - 1];
      if i == 0 {
        assert r[j] in rest;
      } else {
        assert r[i] == rest[i - 1];
      }
    }
  }

  /** The fields on which two snapshots disagree, in declaration order
      (the role of the reflective `getDiffFields`). */
  function Diff(a: MainFields, b: MainFields): (r: seq<Field>)
    ensures forall f :: f in r <==> Differs(a, b, f)
    ensures InOrder(r)
    ensures r == [] <==> a == b
  {
    DeclarationOrderComplete();
    DiffOverInOrder(DeclarationOrder, a, b);
    DiffOverDeclarationOrder(a, b);
    DiffOver(DeclarationOrder, a, b)
  }

  /** Over all tracked fields, the diff is empty exactly when the snapshots are equal. */
  lemma DiffOverDeclarationOrder(a: MainFields, b: MainFields)
    ensures DiffOver(DeclarationOrder, a, b) == [] <==> a == b
  {
    DeclarationOrderComplete();
    var r := DiffOver(DeclarationOrder, a, b);
    if a == b {
      assert r != [] ==> Differs(a, b, r[0]);
    } else {
      SomeFieldDiffers(a, b);
    }
  }

  /** Two snapshots that are not equal disagree on at least one field. */
  lemma SomeFieldDiffers(a: MainFields, b: MainFields)
    ensures a != b ==> exists f :: f in DeclarationOrder && Differs(a, b, f)
  {
    if a != b {
      if a.threadPoolName != b.threadPoolName { assert Differs(a, b, ThreadPoolName); }
      else if a.corePoolSize != b.corePoolSize { assert Differs(a, b, CorePoolSize); }
      else if a.maxPoolSize != b.maxPoolSize { assert Differs(a, b, MaxPoolSize); }
      else if a.keepAliveTime != b.keepAliveTime { assert Differs(a, b, KeepAliveTime); }
      else if a.queueType != b.queueType { assert Differs(a, b, QueueType); }
      else if a.queueCapacity != b.queueCapacity { assert Differs(a, b, QueueCapacity); }
      else if a.rejectType != b.rejectType { assert Differs(a, b, RejectType); }
      else { assert Differs(a, b, ThreadPoolAliasName); }
    }
  }

  /** The names of the given fields, in the same order. */
  function Names(fs: seq<Field>): (r: seq<string>)
    ensures |r| == |fs|
    ensures forall i :: 0 <= i < |fs| ==> r[i] == FieldName(fs[i])
  {
    if fs == [] then [] else [FieldName(fs[0])] + Names(fs[1..])
  }

  /** The changed keys carried by a change notice: the names of the
      differing fields, in declaration order. */
  function DiffKeys(a: MainFields, b: MainFields): (r: seq<string>)
    ensures forall f :: FieldName(f) in r <==> Differs(a, b, f)
    ensures r == [] <==> a == b
  {
    var d := Diff(a, b);
    var r := Names(d);
    assert forall f :: FieldName(f) in r ==> f in d by {
      forall f | FieldName(f) in r ensures f in d {
        var i :| 0 <= i < |r| && r[i] == FieldName(f);
        FieldNameInjective(d[i], f);
      }
    }
    assert forall f :: f in d ==> FieldName(f) in r by {
      forall f | f in d ensures FieldName(f) in r {
        var i :| 0 <= i < |d| && d[i] == f;
        assert r[i] == FieldName(f);
      }
    }
    r
  }

  /** Distinct fields are reported under distinct names. */
  lemma FieldNameInjective(f: Field, g: Field)
    ensures FieldName(f) == FieldName(g) ==> f == g
  {
    if f != g {
      assert FieldName(f)[..4] != FieldName(g)[..4] || FieldName(f)[4..] != FieldName(g)[4..] || |FieldName(f)| != |FieldName(g)|;
    }
  }
}
