/** A persistent collection, as the handlers use it: documents with store-assigned
    ids kept in the store's natural order, which is the order an unsorted `find`
    returns them in. The map view (`Has`, `Find`) is `findById`; `FindBy` is
    `findOne({ field: value })`. */
module Collection {
  import opened Wrappers

  type Id = string

  /** A stored document: the id the store assigned it and the record's fields. */
  datatype Doc<T> = Doc(id: Id, data: T)

  type Coll<T> = seq<Doc<T>>

  /** Some document carries this id. */
  predicate Has<T>(c: Coll<T>, id: Id)
    decreases |c|
  {
    |c| > 0 && (c[0].id == id || Has(c[1..], id))
  }

  /** `findById`: the first document with this id, if any. */
  function Find<T>(c: Coll<T>, id: Id): (r: Option<T>)
    ensures r.Some? <==> Has(c, id)
    ensures r.Some? ==> exists k | 0 <= k < |c| :: c[k] == Doc(id, r.value)
    decreases |c|
  {
    if |c| == 0 then None
    else if c[0].id == id then Some(c[0].data)
    else
      var r := Find(c[1..], id);
      assert forall k | 0 <= k < |c| - 1 :: c[1..][k] == c[k + 1];
      r
  }

  lemma HasIndex<T>(c: Coll<T>, id: Id, k: int)
    requires 0 <= k < |c| && c[k].id == id
    ensures Has(c, id)
    decreases k
  {
    if k > 0 {
      HasIndex(c[1..], id, k - 1);
    }
  }

  /** No two documents share an id, as the store guarantees for `_id`. */
  predicate UniqueIds<T>(c: Coll<T>) {
    forall i, j | 0 <= i < j < |c| :: c[i].id != c[j].id
  }

  /** With unique ids, looking up a document's id finds that document. */
  lemma {:induction false} FindAt<T>(c: Coll<T>, k: int)
    requires UniqueIds(c) && 0 <= k < |c|
    ensures Find(c, c[k].id) == Some(c[k].data)
    decreases k
  {
    if k > 0 {
      assert c[0].id != c[k].id;
      assert UniqueIds(c[1..]) by {
        assert forall i | 0 <= i < |c| - 1 :: c[1..][i] == c[i + 1];
      }
      FindAt(c[1..], k - 1);
    }
  }

  /** The position of the first document whose `field` equals `value`, or -1
      when there is none. */
  function IndexBy<T>(c: Coll<T>, field: T -> string, value: string): (k: int)
    ensures -1 <= k < |c|
    ensures k == -1 <==> forall i | 0 <= i < |c| :: field(c[i].data) != value
    ensures k >= 0 ==> field(c[k].data) == value
    ensures k >= 0 ==> forall i | 0 <= i < k :: field(c[i].data) != value
    decreases |c|
  {
    if |c| == 0 then -1
    else if field(c[0].data) == value then 0
    else
      var k := IndexBy(c[1..], field, value);
      assert forall i | 0 < i < |c| :: c[i] == c[1..][i - 1];
      if k == -1 then -1 else k + 1
  }

  /** `findOne` looks only at `field`: collections that agree on it position by
      position find at the same position. */
  lemma IndexBySameField<T>(a: Coll<T>, b: Coll<T>, field: T -> string, value: string)
    requires |a| == |b|
    requires forall i | 0 <= i < |a| :: field(a[i].data) == field(b[i].data)
    ensures IndexBy(a, field, value) == IndexBy(b, field, value)
  {
    var ka := IndexBy(a, field, value);
    var kb := IndexBy(b, field, value);
    if ka >= 0 && kb >= 0 {
      assert !(ka < kb) && !(kb < ka);
    }
  }

  /** `findOne({ field: value })`: the first document whose `field` equals `value`. */
  function FindBy<T>(c: Coll<T>, field: T -> string, value: string): (r: Option<Doc<T>>)
    ensures r.None? <==> forall i | 0 <= i < |c| :: field(c[i].data) != value
    ensures r.Some? ==> r.value == c[IndexBy(c, field, value)]
  {
    var k := IndexBy(c, field, value);
    if k == -1 then None else Some(c[k])
  }

  /** No two documents agree on `field` (a uniqueness the handlers maintain). */
  predicate UniqueBy<T>(c: Coll<T>, field: T -> string) {
    forall i, j | 0 <= i < j < |c| :: field(c[i].data) != field(c[j].data)
  }

  /** `create`: the new document goes after every existing one. */
  function Insert<T>(c: Coll<T>, id: Id, v: T): (r: Coll<T>)
    ensures |r| == |c| + 1 && r[..|c|] == c && r[|c|] == Doc(id, v)
    ensures Has(r, id)
    ensures !Has(c, id) ==> Find(r, id) == Some(v)
    ensures forall x | x != id :: Has(r, x) == Has(c, x) && Find(r, x) == Find(c, x)
    ensures UniqueIds(c) && !Has(c, id) ==> UniqueIds(r)
  {
    InsertKeepsOthers(c, id, v);
    InsertKeepsUnique(c, id, v);
    c + [Doc(id, v)]
  }

  lemma {:induction false} InsertKeepsOthers<T>(c: Coll<T>, id: Id, v: T)
    ensures Has(c + [Doc(id, v)], id)
    ensures !Has(c, id) ==> Find(c + [Doc(id, v)], id) == Some(v)
    ensures forall x | x != id ::
      Has(c + [Doc(id, v)], x) == Has(c, x) && Find(c + [Doc(id, v)], x) == Find(c, x)
    decreases |c|
  {
    if |c| > 0 {
      var r := c + [Doc(id, v)];
      assert r[0] == c[0] && r[1..] == c[1..] + [Doc(id, v)];
      InsertKeepsOthers(c[1..], id, v);
      forall x | x != id
        ensures Has(r, x) == Has(c, x) && Find(r, x) == Find(c, x)
      {
      }
    } else {
      var r := c + [Doc(id, v)];
      assert r[1..] == [];
    }
  }

  lemma InsertKeepsUnique<T>(c: Coll<T>, id: Id, v: T)
    ensures UniqueIds(c) && !Has(c, id) ==> UniqueIds(c + [Doc(id, v)])
  {
    if UniqueIds(c) && !Has(c, id) {
      forall i | 0 <= i < |c|
        ensures c[i].id != id
      {
        if c[i].id == id {
          HasIndex(c, id, i);
        }
      }
    }
  }

  /** `findOne` after an insert: the new document is found exactly when nothing
      before it matches. */
  lemma {:induction false} FindByInsert<T>(c: Coll<T>, id: Id, v: T, field: T -> string, value: string)
    ensures FindBy(Insert(c, id, v), field, value) ==
      if FindBy(c, field, value).Some? then FindBy(c, field, value)
      else if field(v) == value then Some(Doc(id, v))
      else None
  {
    var r := Insert(c, id, v);
    var k := IndexBy(c, field, value);
    var k' := IndexBy(r, field, value);
    if k >= 0 {
      assert r[k] == c[k];
      assert forall i | 0 <= i < k :: r[i] == c[i];
      assert k' == k;
    } else if field(v) == value {
      assert forall i | 0 <= i < |c| :: r[i] == c[i];
      assert k' == |c|;
    } else {
      assert forall i | 0 <= i < |c| :: r[i] == c[i];
    }
  }

  /** `deleteOne` on the document with this id: every document with another id stays. */
  function Remove<T>(c: Coll<T>, id: Id): (r: Coll<T>)
    ensures |r| <= |c|
    ensures !Has(r, id)
    ensures forall x | x != id :: Has(r, x) == Has(c, x) && Find(r, x) == Find(c, x)
    decreases |c|
  {
    if |c| == 0 then []
    else if c[0].id == id then Remove(c[1..], id)
    else
      var rest := Remove(c[1..], id);
      var r := [c[0]] + rest;
      assert r[0] == c[0] && r[1..] == rest;
      RemoveStep(c, id, rest);
      r
  }

  lemma RemoveStep<T>(c: Coll<T>, id: Id, rest: Coll<T>)
    requires |c| > 0 && c[0].id != id
    requires forall x | x != id :: Has(rest, x) == Has(c[1..], x) && Find(rest, x) == Find(c[1..], x)
    ensures forall x | x != id ::
      Has([c[0]] + rest, x) == Has(c, x) && Find([c[0]] + rest, x) == Find(c, x)
  {
    var r := [c[0]] + rest;
    assert r[0] == c[0] && r[1..] == rest;
    forall x | x != id
      ensures Has(r, x) == Has(c, x) && Find(r, x) == Find(c, x)
    {
      assert Has(rest, x) == Has(c[1..], x);
    }
  }

  /** Saving a changed document: the document with this id takes the new fields,
      keeps its id and its place. */
  function Replace<T>(c: Coll<T>, id: Id, v: T): (r: Coll<T>)
    ensures |r| == |c|
    ensures forall i | 0 <= i < |c| :: r[i].id == c[i].id
    ensures forall i | 0 <= i < |c| && c[i].id != id :: r[i] == c[i]
    ensures forall i | 0 <= i < |c| && c[i].id == id :: r[i].data == v
    ensures forall x :: Has(r, x) == Has(c, x)
    ensures Has(c, id) ==> Find(r, id) == Some(v)
    ensures forall x | x != id :: Find(r, x) == Find(c, x)
    decreases |c|
  {
    if |c| == 0 then []
    else
      var rest := Replace(c[1..], id, v);
      var head := if c[0].id == id then Doc(id, v) else c[0];
      assert ([head] + rest)[1..] == rest;
      [head] + rest
  }

  /** The total length of all ids in the collection. */
  function IdLengths<T>(c: Coll<T>): nat
    decreases |c|
  {
    if |c| == 0 then 0 else |c[0].id| + IdLengths(c[1..])
  }

  lemma {:induction false} LongIdAbsent<T>(c: Coll<T>, id: Id)
    requires |id| > IdLengths(c)
    ensures !Has(c, id)
    decreases |c|
  {
    if |c| > 0 {
      LongIdAbsent(c[1..], id);
    }
  }

  /** The id the store gives a new document: one no document has yet (an id longer
      than all existing ids together stands in for ObjectId generation). */
  function FreshId<T>(c: Coll<T>): (id: Id)
    ensures !Has(c, id)
    ensures id != ""
  {
    var id := seq(IdLengths(c) + 1, _ => '0');
    LongIdAbsent(c, id);
    id
  }
}
