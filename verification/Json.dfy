/** JSON values and the key-sorting canonical form of `src/core/signer.rs`. An object is a sequence of
    fields in arbitrary order, so sorting does real work; numbers are integers, the only kind a seal
    payload holds. */
module Json {
  import opened StableSort

  datatype Json =
    | Null
    | Bool(b: bool)
    | Num(n: int)
    | Str(s: string)
    | Arr(items: seq<Json>)
    | Obj(fields: seq<Field>)

  datatype Field = Field(key: string, value: Json)

  // --------------------------------------------------------------------------------- order on keys

  /** Lexicographic order by Unicode scalar value, which is the byte order of UTF-8. */
  predicate StrLe(a: string, b: string) {
    a == [] || (b != [] && (a[0] < b[0] || (a[0] == b[0] && StrLe(a[1..], b[1..]))))
  }

  lemma {:induction false} StrTotal(a: string, b: string)
    ensures StrLe(a, b) || StrLe(b, a)
    ensures StrLe(a, b) && StrLe(b, a) ==> a == b
    decreases |a|
  {
    if a != [] && b != [] && a[0] == b[0] {
      StrTotal(a[1..], b[1..]);
      assert a == [a[0]] + a[1..] && b == [b[0]] + b[1..];
    }
  }

  lemma {:induction false} StrTransitive(a: string, b: string, c: string)
    requires StrLe(a, b) && StrLe(b, c)
    ensures StrLe(a, c)
    decreases |a|
  {
    if a != [] && a[0] == b[0] && b[0] == c[0] {
      StrTransitive(a[1..], b[1..], c[1..]);
    }
  }

  /** The strings agree up to position `i`, where `a` ends or has the lower character. */
  predicate LowerAt(a: string, b: string, i: nat) {
    && i <= |a| && i <= |b| && a[..i] == b[..i]
    && (i == |a| || (i < |b| && a[i] < b[i]))
  }

  /** Ascending means what a dictionary means by it: a prefix, or the lower character where they part. */
  lemma {:induction false} StrLeIsLexicographic(a: string, b: string)
    ensures StrLe(a, b) <==> exists i: nat :: LowerAt(a, b, i)
    decreases |a|
  {
    if a == [] {
      assert LowerAt(a, b, 0);
    } else if b != [] && a[0] == b[0] {
      StrLeIsLexicographic(a[1..], b[1..]);
      if i: nat :| LowerAt(a[1..], b[1..], i) {
        assert a[..i + 1] == [a[0]] + a[1..][..i] && b[..i + 1] == [b[0]] + b[1..][..i];
        assert LowerAt(a, b, i + 1);
      }
      if i: nat :| LowerAt(a, b, i) {
        assert i > 0;
        assert a[1..][..i - 1] == a[..i][1..] && b[1..][..i - 1] == b[..i][1..];
        assert LowerAt(a[1..], b[1..], i - 1);
      }
    } else if b != [] {
      assert a[0] < b[0] ==> LowerAt(a, b, 0);
      if i: nat :| LowerAt(a, b, i) {
        assert i > 0 ==> a[..i][0] == b[..i][0];
      }
    }
  }

  predicate FieldLe(f: Field, g: Field) {
    StrLe(f.key, g.key)
  }

  lemma FieldOrder()
    ensures TotalPreorder(FieldLe)
    ensures forall f, g :: Tied(FieldLe, f, g) <==> f.key == g.key
  {
    forall f, g ensures (FieldLe(f, g) || FieldLe(g, f)) && (Tied(FieldLe, f, g) <==> f.key == g.key) {
      StrTotal(f.key, g.key);
      StrTotal(g.key, f.key);
    }
    forall f, g, h | FieldLe(f, g) && FieldLe(g, h) ensures FieldLe(f, h) {
      StrTransitive(f.key, g.key, h.key);
    }
  }

  // -------------------------------------------------------------------------------- canonical form

  function Canon(v: Json): Json
    decreases v, 1
  {
    match v
    case Obj(fields) => Obj(Sort(FieldLe, CanonFields(fields)))
    case Arr(items) => Arr(CanonItems(items))
    case _ => v
  }

  function CanonItems(items: seq<Json>): (r: seq<Json>)
    ensures |r| == |items|
    decreases items, 0
  {
    if items == [] then [] else [Canon(items[0])] + CanonItems(items[1..])
  }

  function CanonFields(fields: seq<Field>): (r: seq<Field>)
    ensures |r| == |fields|
    decreases fields, 0
  {
    if fields == [] then [] else [CanonField(fields[0])] + CanonFields(fields[1..])
  }

  function CanonField(f: Field): Field
    decreases f, 0
  {
    Field(f.key, Canon(f.value))
  }

  lemma {:induction false} CanonItemAt(items: seq<Json>, i: nat)
    requires i < |items|
    ensures CanonItems(items)[i] == Canon(items[i])
    decreases |items|
  {
    if i > 0 {
      CanonItemAt(items[1..], i - 1);
    }
  }

  lemma {:induction false} CanonFieldAt(fields: seq<Field>, i: nat)
    requires i < |fields|
    ensures CanonFields(fields)[i] == CanonField(fields[i])
    decreases |fields|
  {
    if i > 0 {
      CanonFieldAt(fields[1..], i - 1);
    }
  }

  lemma {:induction false} CanonCommutesInsert(f: Field, fields: seq<Field>)
    ensures CanonFields(Insert(FieldLe, f, fields)) == Insert(FieldLe, CanonField(f), CanonFields(fields))
    decreases |fields|
  {
    if fields != [] {
      if FieldLe(f, fields[0]) {
        assert ([f] + fields)[1..] == fields;
      } else {
        CanonCommutesInsert(f, fields[1..]);
        assert Insert(FieldLe, f, fields)[1..] == Insert(FieldLe, f, fields[1..]);
        assert CanonFields(fields)[1..] == CanonFields(fields[1..]);
      }
    }
  }

  /** Sorting first and canonicalizing the sorted values, as the code does, is the same. */
  lemma {:induction false} CanonCommutesSort(fields: seq<Field>)
    ensures CanonFields(Sort(FieldLe, fields)) == Sort(FieldLe, CanonFields(fields))
    decreases |fields|
  {
    if fields != [] {
      CanonCommutesSort(fields[1..]);
      CanonCommutesInsert(fields[0], Sort(FieldLe, fields[1..]));
      assert CanonFields(fields)[1..] == CanonFields(fields[1..]);
    }
  }

  lemma SortedMember(fields: seq<Field>, i: nat)
    requires i < |Sort(FieldLe, fields)|
    ensures Sort(FieldLe, fields)[i] in fields
  {
    SortPermutes(FieldLe, fields);
    assert Sort(FieldLe, fields)[i] in multiset(Sort(FieldLe, fields));
  }

  /** The recursion as code: collect and sort the entries, then insert the canonical values in order. */
  method CanonicalizeValue(v: Json) returns (r: Json)
    ensures r == Canon(v)
    decreases v
  {
    match v
    case Obj(fields) =>
      var sorted := Sort(FieldLe, fields);
      var canonical: seq<Field> := [];
      for i := 0 to |sorted|
        invariant canonical == CanonFields(sorted)[..i]
      {
        SortedMember(fields, i);
        var value := CanonicalizeValue(sorted[i].value);
        CanonFieldAt(sorted, i);
        canonical := canonical + [Field(sorted[i].key, value)];
      }
      CanonCommutesSort(fields);
      r := Obj(canonical);
    case Arr(items) =>
      var canonical: seq<Json> := [];
      for i := 0 to |items|
        invariant canonical == CanonItems(items)[..i]
      {
        var value := CanonicalizeValue(items[i]);
        CanonItemAt(items, i);
        canonical := canonical + [value];
      }
      r := Arr(canonical);
    case _ =>
      r := v;
  }

  // ------------------------------------------------------------------------------ equality as data

  predicate DistinctKeys(fields: seq<Field>) {
    forall i, j :: 0 <= i < j < |fields| ==> fields[i].key != fields[j].key
  }

  /** Every object at every depth has distinct keys, as a JSON map guarantees. */
  ghost predicate WellFormed(v: Json) {
    match v
    case Obj(fields) => DistinctKeys(fields) && forall i :: 0 <= i < |fields| ==> WellFormed(fields[i].value)
    case Arr(items) => forall i :: 0 <= i < |items| ==> WellFormed(items[i])
    case _ => true
  }

  predicate HasKey(fields: seq<Field>, k: string) {
    exists i :: 0 <= i < |fields| && fields[i].key == k
  }

  /** Objects as maps, arrays in order, at all depths. */
  ghost predicate Same(a: Json, b: Json)
    decreases a
  {
    match a
    case Obj(f) =>
      && b.Obj?
      && (forall k :: HasKey(f, k) <==> HasKey(b.fields, k))
      && forall i, j :: 0 <= i < |f| && 0 <= j < |b.fields| && f[i].key == b.fields[j].key ==> Same(f[i].value, b.fields[j].value)
    case Arr(x) =>
      b.Arr? && |x| == |b.items| && forall i :: 0 <= i < |x| ==> Same(x[i], b.items[i])
    case _ => a == b
  }

  lemma {:induction false} DistinctMultiset(f: seq<Field>, x: Field)
    requires DistinctKeys(f)
    ensures multiset(f)[x] == if x in f then 1 else 0
    decreases |f|
  {
    if f != [] {
      assert f == [f[0]] + f[1..];
      DistinctMultiset(f[1..], x);
      if x == f[0] {
        assert forall i :: 0 <= i < |f[1..]| ==> f[1..][i].key != f[0].key;
      }
    }
  }

  lemma DistinctTies(f: seq<Field>)
    requires DistinctKeys(f)
    ensures TiesIdentical(FieldLe, f)
  {
    FieldOrder();
    forall x, y | x in f && y in f && Tied(FieldLe, x, y) ensures x == y {
      var i :| 0 <= i < |f| && f[i] == x;
      var j :| 0 <= j < |f| && f[j] == y;
    }
  }

  lemma CanonKeepsKeys(f: seq<Field>)
    ensures forall i :: 0 <= i < |f| ==> CanonFields(f)[i] == CanonField(f[i])
    ensures DistinctKeys(f) ==> DistinctKeys(CanonFields(f))
  {
    forall i | 0 <= i < |f| ensures CanonFields(f)[i] == CanonField(f[i]) {
      CanonFieldAt(f, i);
    }
  }

  /** With distinct keys, equal sorted fields means equal sets of fields. */
  lemma SortedFieldsEqual(f: seq<Field>, g: seq<Field>)
    requires DistinctKeys(f) && DistinctKeys(g)
    ensures Sort(FieldLe, f) == Sort(FieldLe, g) <==> forall x :: x in f <==> x in g
  {
    SortPermutes(FieldLe, f);
    SortPermutes(FieldLe, g);
    if Sort(FieldLe, f) == Sort(FieldLe, g) {
      forall x ensures x in f <==> x in g {
        assert x in f <==> x in multiset(f);
        assert x in g <==> x in multiset(g);
      }
    }
    if forall x :: x in f <==> x in g {
      assert multiset(f) == multiset(g) by {
        forall x ensures multiset(f)[x] == multiset(g)[x] {
          DistinctMultiset(f, x);
          DistinctMultiset(g, x);
        }
      }
      FieldOrder();
      DistinctTies(f);
      IdenticalTiesSortAlike(FieldLe, f, g);
    }
  }

  /** Canonicalization decides equality of JSON data: two values are the same data if and only if they
      have the identical canonical form. */
  lemma {:induction false} CanonDecidesSame(a: Json, b: Json)
    requires WellFormed(a) && WellFormed(b)
    ensures Same(a, b) <==> Canon(a) == Canon(b)
    decreases a
  {
    match a
    case Obj(f) =>
      if b.Obj? {
        forall i, j | 0 <= i < |f| && 0 <= j < |b.fields|
          ensures Same(f[i].value, b.fields[j].value) <==> Canon(f[i].value) == Canon(b.fields[j].value)
        {
          CanonDecidesSame(f[i].value, b.fields[j].value);
        }
        ObjectsDecided(f, b.fields);
      }
    case Arr(x) =>
      if b.Arr? && |x| == |b.items| {
        forall i | 0 <= i < |x| ensures Same(x[i], b.items[i]) <==> CanonItems(x)[i] == CanonItems(b.items)[i] {
          CanonDecidesSame(x[i], b.items[i]);
          CanonItemAt(x, i);
          CanonItemAt(b.items, i);
        }
        assert Same(a, b) <==> CanonItems(x) == CanonItems(b.items);
      }
    case _ =>
  }

  lemma ObjectsDecided(f: seq<Field>, g: seq<Field>)
    requires DistinctKeys(f) && DistinctKeys(g)
    requires forall i, j :: 0 <= i < |f| && 0 <= j < |g| ==>
               (Same(f[i].value, g[j].value) <==> Canon(f[i].value) == Canon(g[j].value))
    ensures Same(Obj(f), Obj(g)) <==> Canon(Obj(f)) == Canon(Obj(g))
  {
    var F, G := CanonFields(f), CanonFields(g);
    CanonKeepsKeys(f);
    CanonKeepsKeys(g);
    SortedFieldsEqual(F, G);
    if Same(Obj(f), Obj(g)) {
      SameFieldsIncluded(f, g);
      SameFieldsIncluded(g, f);
    }
    if forall x :: x in F <==> x in G {
      EqualFieldsSame(f, g);
    }
  }

  /** Matching keys with matching canonical values: every canonical field of `f` is one of `g`. */
  lemma SameFieldsIncluded(f: seq<Field>, g: seq<Field>)
    requires forall k :: HasKey(f, k) ==> HasKey(g, k)
    requires forall i, j :: 0 <= i < |f| && 0 <= j < |g| && f[i].key == g[j].key ==> Canon(f[i].value) == Canon(g[j].value)
    ensures forall x :: x in CanonFields(f) ==> x in CanonFields(g)
  {
    CanonKeepsKeys(f);
    CanonKeepsKeys(g);
    forall x | x in CanonFields(f) ensures x in CanonFields(g) {
      var i :| 0 <= i < |f| && CanonFields(f)[i] == x;
      assert HasKey(f, f[i].key) && HasKey(g, f[i].key);
      var j :| 0 <= j < |g| && g[j].key == f[i].key;
      assert CanonFields(g)[j] == x;
    }
  }

  lemma EqualFieldsSame(f: seq<Field>, g: seq<Field>)
    requires DistinctKeys(f) && DistinctKeys(g)
    requires forall i, j :: 0 <= i < |f| && 0 <= j < |g| ==>
               (Same(f[i].value, g[j].value) <==> Canon(f[i].value) == Canon(g[j].value))
    requires forall x :: x in CanonFields(f) <==> x in CanonFields(g)
    ensures Same(Obj(f), Obj(g))
  {
    CanonKeepsKeys(f);
    CanonKeepsKeys(g);
    KeysIncluded(f, g);
    KeysIncluded(g, f);
    forall i, j | 0 <= i < |f| && 0 <= j < |g| && f[i].key == g[j].key ensures Same(f[i].value, g[j].value) {
      assert CanonFields(f)[i] in CanonFields(g);
      var l :| 0 <= l < |g| && CanonFields(g)[l] == CanonFields(f)[i];
      assert l == j;
    }
  }

  lemma KeysIncluded(f: seq<Field>, g: seq<Field>)
    requires forall x :: x in CanonFields(f) ==> x in CanonFields(g)
    ensures forall k :: HasKey(f, k) ==> HasKey(g, k)
  {
    CanonKeepsKeys(f);
    CanonKeepsKeys(g);
    forall k | HasKey(f, k) ensures HasKey(g, k) {
      var i :| 0 <= i < |f| && f[i].key == k;
      assert CanonFields(f)[i] in CanonFields(g);
      var j :| 0 <= j < |g| && CanonFields(g)[j] == CanonFields(f)[i];
      assert g[j].key == k;
    }
  }

  // ------------------------------------------------------------------- idempotence, lookups, shape

  /** Fields in key order at every depth. */
  ghost predicate Canonical(v: Json) {
    match v
    case Obj(fields) => Sorted(FieldLe, fields) && forall i :: 0 <= i < |fields| ==> Canonical(fields[i].value)
    case Arr(items) => forall i :: 0 <= i < |items| ==> Canonical(items[i])
    case _ => true
  }

  lemma {:induction false} CanonIsCanonical(v: Json)
    ensures Canonical(Canon(v))
    decreases v
  {
    match v
    case Obj(fields) =>
      FieldOrder();
      var canon := CanonFields(fields);
      SortIsStable(FieldLe, canon);
      SortPermutes(FieldLe, canon);
      forall i | 0 <= i < |fields| ensures Canonical(canon[i].value) {
        CanonFieldAt(fields, i);
        CanonIsCanonical(fields[i].value);
      }
      var sorted := Sort(FieldLe, canon);
      forall i | 0 <= i < |sorted| ensures Canonical(sorted[i].value) {
        assert sorted[i] in multiset(sorted);
        assert sorted[i] in canon;
      }
    case Arr(items) =>
      forall i | 0 <= i < |items| ensures Canonical(CanonItems(items)[i]) {
        CanonItemAt(items, i);
        CanonIsCanonical(items[i]);
      }
    case _ =>
  }

  /** The keys of a canonical object ascend: each is a prefix of the next ones or has the lower character
      where they part. */
  lemma CanonicalKeysAscend(v: Json, i: nat, j: nat)
    requires v.Obj? && i < j < |Canon(v).fields|
    ensures exists k: nat :: LowerAt(Canon(v).fields[i].key, Canon(v).fields[j].key, k)
  {
    CanonIsCanonical(v);
    StrLeIsLexicographic(Canon(v).fields[i].key, Canon(v).fields[j].key);
  }

  lemma {:induction false} CanonFixesCanonical(v: Json)
    requires Canonical(v)
    ensures Canon(v) == v
    decreases v
  {
    match v
    case Obj(fields) =>
      forall i | 0 <= i < |fields| ensures CanonFields(fields)[i] == fields[i] {
        CanonFieldAt(fields, i);
        CanonFixesCanonical(fields[i].value);
      }
      assert CanonFields(fields) == fields;
      FieldOrder();
      SortIsStable(FieldLe, fields);
      StableSortUnique(FieldLe, Sort(FieldLe, fields), fields);
    case Arr(items) =>
      forall i | 0 <= i < |items| ensures CanonItems(items)[i] == items[i] {
        CanonItemAt(items, i);
        CanonFixesCanonical(items[i]);
      }
      assert CanonItems(items) == items;
    case _ =>
  }

  lemma CanonIdempotent(v: Json)
    ensures Canon(Canon(v)) == Canon(v)
  {
    CanonIsCanonical(v);
    CanonFixesCanonical(Canon(v));
  }

  datatype Found = Missing | Found(value: Json)

  function Lookup(fields: seq<Field>, k: string): Found {
    if fields == [] then Missing
    else if fields[0].key == k then Found(fields[0].value)
    else Lookup(fields[1..], k)
  }

  lemma {:induction false} LookupIsFirstTie(fields: seq<Field>, k: string)
    ensures var ties := Ties(FieldLe, fields, Field(k, Null));
            Lookup(fields, k) == if ties == [] then Missing else Found(ties[0].value)
    decreases |fields|
  {
    FieldOrder();
    if fields != [] {
      LookupIsFirstTie(fields[1..], k);
    }
  }

  lemma {:induction false} LookupOfCanonFields(fields: seq<Field>, k: string)
    ensures Lookup(CanonFields(fields), k)
            == match Lookup(fields, k) case Missing => Missing case Found(v) => Found(Canon(v))
    decreases |fields|
  {
    if fields != [] {
      LookupOfCanonFields(fields[1..], k);
      assert CanonFields(fields)[1..] == CanonFields(fields[1..]);
    }
  }

  /** Every key looks up the same value, canonicalized, before and after. */
  lemma LookupPreserved(fields: seq<Field>, k: string)
    ensures Lookup(Canon(Obj(fields)).fields, k)
            == match Lookup(fields, k) case Missing => Missing case Found(v) => Found(Canon(v))
  {
    FieldOrder();
    var canon := CanonFields(fields);
    SortIsStable(FieldLe, canon);
    LookupIsFirstTie(canon, k);
    LookupIsFirstTie(Sort(FieldLe, canon), k);
    LookupOfCanonFields(fields, k);
  }
}
