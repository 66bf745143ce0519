/**
 * The product table and the repository operations on it.
 *
 * A table is the sequence of rows in the order the database returns them.
 * Its abstract view `AsMap` is the finite map keyed by the composite key
 * (ManufactureEmail, ProduceDate); a key lookup finds the first matching row,
 * so the first row with a key is the one the map holds.
 */
module Repository {
  import opened Optional
  import opened Domain

  type Table = seq<Product>

  /** Outcome of a write the database accepted: the new table and the entity returned. */
  datatype Saved = Saved(table: Table, entity: Product)

  /** Outcome of a delete: the new table and the repository's boolean result. */
  datatype Deleted = Deleted(table: Table, result: bool)

  /** The names present in a table. */
  function Names(t: Table): set<string> {
    set p | p in t :: p.name
  }

  /** No key repeats among the later rows: the composite primary key. */
  predicate UniqueKeys(t: Table) {
    |t| == 0 || (KeyOf(t[0]) !in AsMap(t[1..]) && UniqueKeys(t[1..]))
  }

  /** The key column is never null. */
  predicate KeysNotNull(t: Table) {
    forall p :: p in t ==> p.manufactureEmail.Some?
  }

  /** A table the database can hold. */
  predicate ValidTable(t: Table) {
    UniqueKeys(t) && KeysNotNull(t)
  }

  /** No name repeats among the later rows: the uniqueness create guards. */
  predicate DistinctNames(t: Table) {
    |t| == 0 || (t[0].name !in Names(t[1..]) && DistinctNames(t[1..]))
  }

  /** The table as a finite map from key to row. */
  function AsMap(t: Table): map<ProductKey, Product> {
    if |t| == 0 then map[] else AsMap(t[1..])[KeyOf(t[0]) := t[0]]
  }

  /** The key lookup's condition: both key fields equal. */
  predicate Matches(p: Product, key: ProductKey) {
    p.produceDate == key.produceDate && p.manufactureEmail == key.manufactureEmail
  }

  function ByName(name: string): Product -> bool {
    (p: Product) => p.name == name
  }

  function ByEmail(email: string): Product -> bool {
    (p: Product) => p.manufactureEmail == Some(email)
  }

  /** GetAllProducts: every row of the table. */
  function GetAllProducts(t: Table): (r: seq<Product>)
    ensures |r| == |t|
    ensures forall k :: k in AsMap(t) ==> AsMap(t)[k] in r
    ensures forall p :: p in r ==> KeyOf(p) in AsMap(t)
  {
    MapViewOfRows(t);
    t
  }

  /** GetProductByKey: the first row matching both key fields, or null. */
  function GetProductByKey(t: Table, key: ProductKey): (r: Option<Product>)
    ensures r.Some? <==> key in AsMap(t)
    ensures r.Some? ==> r.value == AsMap(t)[key] && KeyOf(r.value) == key
  {
    if |t| == 0 then None
    else if Matches(t[0], key) then Some(t[0])
    else GetProductByKey(t[1..], key)
  }

  /** GetFilteredProducts: the rows satisfying the predicate, each as often
      as the table holds it. */
  function GetFilteredProducts(t: Table, pred: Product -> bool): (r: seq<Product>)
    ensures forall p {:trigger multiset(r)[p]} :: multiset(r)[p] == if pred(p) then multiset(t)[p] else 0
    ensures forall p :: p in r <==> p in t && pred(p)
    ensures |r| <= |t|
  {
    if |t| == 0 then []
    else
      assert t == [t[0]] + t[1..];
      (if pred(t[0]) then [t[0]] else []) + GetFilteredProducts(t[1..], pred)
  }

  /** The duplicate-name query: a non-empty filtered list. */
  function NameTaken(t: Table, name: string): (b: bool)
    ensures b <==> name in Names(t)
  {
    var found := GetFilteredProducts(t, ByName(name));
    if |found| > 0 then
      assert found[0] in found;
      true
    else
      assert forall p :: p in t ==> ByName(name)(p) ==> p in found;
      false
  }

  /** AddProduct: the database takes the row unless its key is null or
      already stored; the entity returned is the product given. */
  function AddProduct(t: Table, p: Product): (r: Option<Saved>)
    ensures r.Some? <==> p.manufactureEmail.Some? && KeyOf(p) !in AsMap(t)
    ensures r.Some? ==> r.value.entity == p
    ensures r.Some? ==> AsMap(r.value.table) == AsMap(t)[KeyOf(p) := p]
    ensures r.Some? ==> |r.value.table| == |t| + 1 && r.value.table[..|t|] == t && r.value.table[|t|] == p
    ensures r.Some? && ValidTable(t) ==> ValidTable(r.value.table)
    ensures r.Some? && DistinctNames(t) && p.name !in Names(t) ==> DistinctNames(r.value.table)
  {
    if p.manufactureEmail.None? || GetProductByKey(t, KeyOf(p)).Some? then None
    else
      AppendFresh(t, p);
      DistinctNamesAppend(t, p);
      Some(Saved(t + [p], p))
  }

  /** The rows whose key differs from `key`, in their order. */
  function RemoveKey(t: Table, key: ProductKey): (r: Table)
    ensures forall p :: p in r <==> p in t && KeyOf(p) != key
    ensures |r| <= |t|
  {
    if |t| == 0 then []
    else
      var rest := RemoveKey(t[1..], key);
      if KeyOf(t[0]) == key then rest else [t[0]] + rest
  }

  /** DeleteProduct: remove the row with the product's key; the result is
      whether any row was affected. */
  function DeleteProduct(t: Table, p: Product): (d: Deleted)
    ensures d.result <==> KeyOf(p) in AsMap(t)
    ensures AsMap(d.table) == AsMap(t) - {KeyOf(p)}
    ensures ValidTable(t) ==> ValidTable(d.table)
    ensures DistinctNames(t) ==> DistinctNames(d.table)
  {
    var remaining := RemoveKey(t, KeyOf(p));
    RemoveKeyMapView(t, KeyOf(p));
    RemoveKeyKeepsUniqueKeys(t, KeyOf(p));
    RemoveKeyKeepsDistinctNames(t, KeyOf(p));
    RemoveKeyRowCount(t, KeyOf(p));
    var rowsAffected := |t| - |remaining|;
    Deleted(remaining, rowsAffected > 0)
  }

  /** The row with key `key` replaced by `q`, in place. */
  function ReplaceRow(t: Table, key: ProductKey, q: Product): (r: Table)
    ensures |r| == |t|
    ensures forall p :: p in r ==> p == q || (p in t && KeyOf(p) != key)
    ensures KeyOf(q) == key ==> AsMap(r) == if key in AsMap(t) then AsMap(t)[key := q] else AsMap(t)
  {
    if |t| == 0 then []
    else
      var rest := ReplaceRow(t[1..], key, q);
      var r := if KeyOf(t[0]) == key then [q] + rest else [t[0]] + rest;
      ReplaceRowStep(t, key, q, rest, r);
      r
  }

  /** One step of `ReplaceRow`: putting the first row, or `q` in its place,
      in front of the already replaced tail extends the map view as the
      replacement demands. */
  lemma ReplaceRowStep(t: Table, key: ProductKey, q: Product, rest: Table, r: Table)
    requires |t| > 0 && r == (if KeyOf(t[0]) == key then [q] + rest else [t[0]] + rest)
    requires KeyOf(q) == key ==>
               AsMap(rest) == if key in AsMap(t[1..]) then AsMap(t[1..])[key := q] else AsMap(t[1..])
    ensures r[1..] == rest
    ensures KeyOf(q) == key ==> AsMap(r) == if key in AsMap(t) then AsMap(t)[key := q] else AsMap(t)
  {
    assert r[1..] == rest;
    if KeyOf(q) == key {
      var tail := AsMap(t[1..]);
      var k0 := KeyOf(t[0]);
      assert AsMap(t) == tail[k0 := t[0]];
      assert AsMap(r) == AsMap(rest)[KeyOf(r[0]) := r[0]];
      if k0 == key {
        assert AsMap(r) == tail[key := q];
      } else if key in tail {
        UpdatesCommute(tail, key, q, k0, t[0]);
      }
    }
  }

  /** The values an update applies to the stored product: Name and
      IsAvailable from `updated`; key fields and phone stay. */
  function ApplyUpdate(existing: Product, updated: Product): (p: Product)
    ensures KeyOf(p) == KeyOf(existing)
    ensures p.manufacturePhone == existing.manufacturePhone
    ensures p.name == updated.name && p.isAvailable == updated.isAvailable
  {
    existing.(name := updated.name, isAvailable := updated.isAvailable)
  }

  /** UpdateProduct: the stored row with the existing product's key takes
      the updated Name and IsAvailable; the database refuses an update of a
      row that is not there. */
  function UpdateProduct(t: Table, existing: Product, updated: Product): (r: Option<Saved>)
    ensures r.Some? <==> KeyOf(existing) in AsMap(t)
    ensures r.Some? ==> r.value.entity == ApplyUpdate(existing, updated)
    ensures r.Some? ==> AsMap(r.value.table) == AsMap(t)[KeyOf(existing) := r.value.entity]
    ensures r.Some? && ValidTable(t) && existing.manufactureEmail.Some? ==> ValidTable(r.value.table)
  {
    if GetProductByKey(t, KeyOf(existing)).None? then None
    else
      var q := ApplyUpdate(existing, updated);
      ReplaceRowKeepsUniqueKeys(t, KeyOf(existing), q);
      Some(Saved(ReplaceRow(t, KeyOf(existing), q), q))
  }

  /** `CurrentValues.SetValues(updated)` on the tracked entity, under the
      reading that Entity Framework refuses to modify a key property: every
      scalar value of `updated` is copied, key fields included, and the copy
      fails (None) whenever `updated` carries a different key. Which reading
      holds is a property of Entity Framework Core, not of this repository. */
  function SetValuesRefusingKeyChange(existing: Product, updated: Product): (r: Option<Product>)
    ensures r.Some? <==> KeyOf(updated) == KeyOf(existing)
    ensures r.Some? ==> KeyOf(r.value) == KeyOf(existing)
    ensures r.Some? ==> r.value.manufacturePhone == updated.manufacturePhone
    ensures r.Some? ==> r.value.name == updated.name && r.value.isAvailable == updated.isAvailable
  {
    if KeyOf(updated) != KeyOf(existing) then None else Some(updated)
  }

  /** `CurrentValues.SetValues(updated)` under the reading that key
      properties are skipped: every other scalar value of `updated` is
      copied, the phone included. It agrees with the intended update
      exactly when `updated` carries the stored phone. */
  function SetValuesSkippingKeys(existing: Product, updated: Product): (p: Product)
    ensures KeyOf(p) == KeyOf(existing)
    ensures p.manufacturePhone == updated.manufacturePhone
    ensures p.name == updated.name && p.isAvailable == updated.isAvailable
    ensures p == ApplyUpdate(existing, updated) <==> updated.manufacturePhone == existing.manufacturePhone
  {
    existing.(name := updated.name, manufacturePhone := updated.manufacturePhone, isAvailable := updated.isAvailable)
  }

  /** UpdateProduct as written, under the reading that a key change is
      refused: the row is marked modified, overwritten with all of
      `updated`'s values, and saved. The database refuses the save of a row
      that is not there; the copy itself fails on a key change. */
  function UpdateRefusingKeyChange(t: Table, existing: Product, updated: Product): (r: Option<Saved>)
    ensures r.Some? <==> KeyOf(existing) in AsMap(t) && KeyOf(updated) == KeyOf(existing)
    ensures r.Some? ==> r.value.entity == updated
    ensures r.Some? ==> AsMap(r.value.table) == AsMap(t)[KeyOf(existing) := updated]
    ensures r.Some? && ValidTable(t) ==> ValidTable(r.value.table)
  {
    if GetProductByKey(t, KeyOf(existing)).None? then None
    else
      match SetValuesRefusingKeyChange(existing, updated)
      case None => None
      case Some(q) =>
        ReplaceRowKeepsUniqueKeys(t, KeyOf(existing), q);
        MapViewOfRows(t);
        Some(Saved(ReplaceRow(t, KeyOf(existing), q), q))
  }

  /** UpdateProduct as written, under the reading that key properties are
      skipped: the stored row keeps its key and takes every other value of
      `updated`. The database refuses the save of a row that is not there. */
  function UpdateSkippingKeys(t: Table, existing: Product, updated: Product): (r: Option<Saved>)
    ensures r.Some? <==> KeyOf(existing) in AsMap(t)
    ensures r.Some? ==> r.value.entity == SetValuesSkippingKeys(existing, updated)
    ensures r.Some? ==> AsMap(r.value.table) == AsMap(t)[KeyOf(existing) := r.value.entity]
    ensures r.Some? && ValidTable(t) && existing.manufactureEmail.Some? ==> ValidTable(r.value.table)
  {
    if GetProductByKey(t, KeyOf(existing)).None? then None
    else
      var q := SetValuesSkippingKeys(existing, updated);
      ReplaceRowKeepsUniqueKeys(t, KeyOf(existing), q);
      Some(Saved(ReplaceRow(t, KeyOf(existing), q), q))
  }

  /** The map view holds exactly the rows' keys, each mapped to a row
      carrying that key. */
  lemma {:induction false} MapViewOfRows(t: Table)
    ensures forall k :: k in AsMap(t) ==> KeyOf(AsMap(t)[k]) == k && AsMap(t)[k] in t
    ensures forall p :: p in t ==> KeyOf(p) in AsMap(t)
  {
    if |t| > 0 {
      MapViewOfRows(t[1..]);
      assert t == [t[0]] + t[1..];
    }
  }

  /** Appending a row whose key is new extends the map view by that row and
      keeps the keys unique. */
  lemma {:induction false} AppendFresh(t: Table, p: Product)
    requires KeyOf(p) !in AsMap(t)
    ensures AsMap(t + [p]) == AsMap(t)[KeyOf(p) := p]
    ensures UniqueKeys(t) ==> UniqueKeys(t + [p])
    ensures (t + [p])[..|t|] == t
  {
    if |t| == 0 {
      assert t + [p] == [p];
    } else {
      assert (t + [p])[1..] == t[1..] + [p];
      assert KeyOf(p) !in AsMap(t[1..]);
      AppendFresh(t[1..], p);
    }
  }

  /** Appending a row with a new name keeps the names distinct. */
  lemma {:induction false} DistinctNamesAppend(t: Table, p: Product)
    ensures DistinctNames(t) && p.name !in Names(t) ==> DistinctNames(t + [p])
  {
    if |t| == 0 {
      assert t + [p] == [p];
    } else {
      assert (t + [p])[1..] == t[1..] + [p];
      assert Names(t[1..]) <= Names(t);
      assert Names(t[1..] + [p]) == Names(t[1..]) + {p.name};
      DistinctNamesAppend(t[1..], p);
    }
  }

  /** Two different rows that share a Name break the uniqueness create guards. */
  lemma {:induction false} SharedNameBreaksDistinctNames(t: Table, p: Product, q: Product)
    requires p in t && q in t && p != q && p.name == q.name
    ensures !DistinctNames(t)
  {
    assert t == [t[0]] + t[1..];
    if p == t[0] {
      assert q in t[1..];
      assert p.name in Names(t[1..]);
    } else if q == t[0] {
      assert p in t[1..];
      assert q.name in Names(t[1..]);
    } else {
      SharedNameBreaksDistinctNames(t[1..], p, q);
    }
  }

  /** Removing the rows of one key removes exactly that key from the map view. */
  lemma {:induction false} RemoveKeyMapView(t: Table, key: ProductKey)
    ensures AsMap(RemoveKey(t, key)) == AsMap(t) - {key}
  {
    if |t| > 0 {
      var tail := AsMap(t[1..]);
      var rest := RemoveKey(t[1..], key);
      RemoveKeyMapView(t[1..], key);
      assert AsMap(rest) == tail - {key};
      if KeyOf(t[0]) == key {
        assert RemoveKey(t, key) == rest;
        RemoveAfterUpdate(tail, key, t[0]);
      } else {
        var r := [t[0]] + rest;
        assert r[1..] == rest;
        assert RemoveKey(t, key) == r;
        assert AsMap(r) == (tail - {key})[KeyOf(t[0]) := t[0]];
        UpdateCommutesWithRemove(tail, KeyOf(t[0]), t[0], key);
      }
    }
  }

  /** Removing a key just written forgets the write. */
  lemma RemoveAfterUpdate(m: map<ProductKey, Product>, key: ProductKey, v: Product)
    ensures m[key := v] - {key} == m - {key}
  {
  }

  /** Writes to two different keys can be done in either order. */
  lemma UpdatesCommute(m: map<ProductKey, Product>, k1: ProductKey, v1: Product, k2: ProductKey, v2: Product)
    requires k1 != k2
    ensures m[k1 := v1][k2 := v2] == m[k2 := v2][k1 := v1]
  {
  }

  /** Writing one key and removing another can be done in either order. */
  lemma UpdateCommutesWithRemove(m: map<ProductKey, Product>, k: ProductKey, v: Product, key: ProductKey)
    requires k != key
    ensures m[k := v] - {key} == (m - {key})[k := v]
  {
  }

  /** Removing the rows of one key keeps the remaining keys unique. */
  lemma {:induction false} RemoveKeyKeepsUniqueKeys(t: Table, key: ProductKey)
    ensures UniqueKeys(t) ==> UniqueKeys(RemoveKey(t, key))
  {
    if |t| > 0 && KeyOf(t[0]) != key {
      var rest := RemoveKey(t[1..], key);
      RemoveKeyKeepsUniqueKeys(t[1..], key);
      RemoveKeyMapView(t[1..], key);
      assert RemoveKey(t, key) == [t[0]] + rest;
      assert ([t[0]] + rest)[1..] == rest;
    } else if |t| > 0 {
      RemoveKeyKeepsUniqueKeys(t[1..], key);
    }
  }

  /** Removing the rows of one key keeps the remaining names distinct. */
  lemma {:induction false} RemoveKeyKeepsDistinctNames(t: Table, key: ProductKey)
    ensures DistinctNames(t) ==> DistinctNames(RemoveKey(t, key))
  {
    if |t| > 0 {
      var rest := RemoveKey(t[1..], key);
      RemoveKeyKeepsDistinctNames(t[1..], key);
      assert Names(rest) <= Names(t[1..]);
      if KeyOf(t[0]) != key {
        assert RemoveKey(t, key) == [t[0]] + rest;
        assert ([t[0]] + rest)[1..] == rest;
      }
    }
  }

  /** Removing the rows of one key shortens the table exactly when the key
      is stored, and by one row when the keys are unique. */
  lemma {:induction false} RemoveKeyRowCount(t: Table, key: ProductKey)
    ensures |RemoveKey(t, key)| < |t| <==> key in AsMap(t)
    ensures UniqueKeys(t) ==> |t| - |RemoveKey(t, key)| == if key in AsMap(t) then 1 else 0
  {
    if |t| > 0 {
      var rest := RemoveKey(t[1..], key);
      RemoveKeyRowCount(t[1..], key);
      if KeyOf(t[0]) == key {
        assert RemoveKey(t, key) == rest;
      } else {
        assert RemoveKey(t, key) == [t[0]] + rest;
      }
    }
  }

  /** Replacing a row by one with the same key keeps the keys unique. */
  lemma {:induction false} ReplaceRowKeepsUniqueKeys(t: Table, key: ProductKey, q: Product)
    requires KeyOf(q) == key
    ensures UniqueKeys(t) ==> UniqueKeys(ReplaceRow(t, key, q))
  {
    if |t| > 0 {
      var rest := ReplaceRow(t[1..], key, q);
      ReplaceRowKeepsUniqueKeys(t[1..], key, q);
      if KeyOf(t[0]) == key {
        assert ReplaceRow(t, key, q) == [q] + rest;
        assert ([q] + rest)[1..] == rest;
      } else {
        assert ReplaceRow(t, key, q) == [t[0]] + rest;
        assert ([t[0]] + rest)[1..] == rest;
      }
    }
  }

  /** The recursive key-uniqueness predicate says that no two rows share a key. */
  lemma {:induction false} UniqueKeysPairwise(t: Table)
    ensures UniqueKeys(t) <==> forall i, j :: 0 <= i < j < |t| ==> KeyOf(t[i]) != KeyOf(t[j])
  {
    if |t| > 0 {
      UniqueKeysPairwise(t[1..]);
      MapViewOfRows(t[1..]);
      if UniqueKeys(t) {
        forall i, j | 0 <= i < j < |t|
          ensures KeyOf(t[i]) != KeyOf(t[j])
        {
          assert t[j] == t[1..][j - 1];
          if i > 0 {
            assert t[i] == t[1..][i - 1];
          } else {
            assert t[j] in t[1..];
          }
        }
      }
      if forall i, j :: 0 <= i < j < |t| ==> KeyOf(t[i]) != KeyOf(t[j]) {
        forall i, j | 0 <= i < j < |t[1..]|
          ensures KeyOf(t[1..][i]) != KeyOf(t[1..][j])
        {
          assert t[1..][i] == t[i + 1] && t[1..][j] == t[j + 1];
        }
      }
    }
  }

  /** With unique keys, the map view holds one entry per row. */
  lemma {:induction false} RowCountIsMapSize(t: Table)
    requires UniqueKeys(t)
    ensures |AsMap(t)| == |t|
  {
    if |t| > 0 {
      RowCountIsMapSize(t[1..]);
    }
  }

  /** With unique keys, each row is the map view's entry for its own key. */
  lemma {:induction false} RowIsMapEntry(t: Table, i: nat)
    requires UniqueKeys(t) && i < |t|
    ensures KeyOf(t[i]) in AsMap(t) && AsMap(t)[KeyOf(t[i])] == t[i]
  {
    if i > 0 {
      RowIsMapEntry(t[1..], i - 1);
      assert t[1..][i - 1] == t[i];
    }
  }
}
