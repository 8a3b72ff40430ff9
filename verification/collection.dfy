/** A document collection in its natural (insertion) order, with the three
    store primitives the services use: `findOne` (the first match),
    `deleteOne` on a found document, and `deleteMany`. */
module Collection {
  import opened Outcomes

  /** A document's `_id`. */
  type ObjectId = nat

  /** `findOne(filter)`: the position of the first document the filter matches. */
  function FindFirst<T>(docs: seq<T>, matches: T -> bool): (r: Option<nat>)
    ensures r.Some? ==> r.value < |docs| && matches(docs[r.value])
    ensures r.Some? ==> forall j :: 0 <= j < r.value ==> !matches(docs[j])
    ensures r.None? <==> forall j :: 0 <= j < |docs| ==> !matches(docs[j])
  {
    if |docs| == 0 then None
    else if matches(docs[0]) then Some(0)
    else
      match FindFirst(docs[1..], matches)
      case None => None
      case Some(i) => Some(i + 1)
  }

  /** `deleteOne` on the document at position `i`. */
  function RemoveAt<T>(docs: seq<T>, i: nat): (r: seq<T>)
    requires i < |docs|
    ensures |r| == |docs| - 1
    ensures forall j :: 0 <= j < i ==> r[j] == docs[j]
    ensures forall j :: i <= j < |r| ==> r[j] == docs[j + 1]
  {
    docs[..i] + docs[i + 1..]
  }

  lemma RemoveAtMembers<T>(docs: seq<T>, i: nat, x: T)
    requires i < |docs|
    ensures x in RemoveAt(docs, i) <==> exists j :: 0 <= j < |docs| && j != i && docs[j] == x
  {
    var r := RemoveAt(docs, i);
    if x in r {
      var k :| 0 <= k < |r| && r[k] == x;
      if k < i { assert docs[k] == x; } else { assert docs[k + 1] == x; }
    }
    if exists j :: 0 <= j < |docs| && j != i && docs[j] == x {
      var j :| 0 <= j < |docs| && j != i && docs[j] == x;
      if j < i { assert r[j] == x; } else { assert r[j - 1] == x; }
    }
  }

  /** Removing a document keeps a property every document has. */
  lemma RemoveAtKeepsAll<T>(docs: seq<T>, i: nat, p: T -> bool)
    requires i < |docs|
    requires forall a :: 0 <= a < |docs| ==> p(docs[a])
    ensures forall a :: 0 <= a < |RemoveAt(docs, i)| ==> p(RemoveAt(docs, i)[a])
  {
    var rest := RemoveAt(docs, i);
    forall a | 0 <= a < |rest|
      ensures p(rest[a])
    {
      if a >= i { assert rest[a] == docs[a + 1]; }
    }
  }

  /** Removing a document keeps a relation every two documents at different
      positions are in. */
  lemma RemoveAtKeepsPairwise<T>(docs: seq<T>, i: nat, r: (T, T) -> bool)
    requires i < |docs|
    requires forall a, b :: 0 <= a < |docs| && 0 <= b < |docs| && a != b ==> r(docs[a], docs[b])
    ensures forall a, b :: 0 <= a < |RemoveAt(docs, i)| && 0 <= b < |RemoveAt(docs, i)| && a != b ==>
      r(RemoveAt(docs, i)[a], RemoveAt(docs, i)[b])
  {
    var rest := RemoveAt(docs, i);
    forall a, b | 0 <= a < |rest| && 0 <= b < |rest| && a != b
      ensures r(rest[a], rest[b])
    {
      var a' := if a < i then a else a + 1;
      var b' := if b < i then b else b + 1;
      assert rest[a] == docs[a'] && rest[b] == docs[b'];
    }
  }

  /** A document matching the filter appended after documents that do not is
      the first match. */
  lemma FindFirstAppended<T>(docs: seq<T>, x: T, matches: T -> bool)
    requires forall j :: 0 <= j < |docs| ==> !matches(docs[j])
    requires matches(x)
    ensures FindFirst(docs + [x], matches) == Some(|docs|)
  {
    var all := docs + [x];
    assert all[|docs|] == x;
    assert forall j :: 0 <= j < |docs| ==> all[j] == docs[j];
  }

  /** `deleteMany(filter)`: what is left keeps its order and is exactly the
      documents the filter does not match. */
  function DeleteMany<T>(docs: seq<T>, matches: T -> bool): (r: seq<T>)
    ensures |r| <= |docs|
    ensures forall j :: 0 <= j < |r| ==> r[j] in docs && !matches(r[j])
    ensures forall j :: 0 <= j < |docs| && !matches(docs[j]) ==> docs[j] in r
  {
    if |docs| == 0 then []
    else
      var rest := DeleteMany(docs[1..], matches);
      assert forall j :: 1 <= j < |docs| ==> docs[j] == docs[1..][j - 1];
      if matches(docs[0]) then rest else [docs[0]] + rest
  }

  /** Deleting with a filter that matches nothing leaves the collection as it was. */
  lemma {:induction false} DeleteManyNoMatch<T>(docs: seq<T>, matches: T -> bool)
    requires forall j :: 0 <= j < |docs| ==> !matches(docs[j])
    ensures DeleteMany(docs, matches) == docs
  {
    if |docs| > 0 {
      DeleteManyNoMatch(docs[1..], matches);
      assert [docs[0]] + docs[1..] == docs;
    }
  }

  /** A single document is kept exactly when the filter does not match it. */
  lemma DeleteManySingle<T>(x: T, matches: T -> bool)
    ensures DeleteMany([x], matches) == if matches(x) then [] else [x]
  {
    assert [x][1..] == [];
  }

  /** `deleteMany` works document by document: the survivors of a concatenation
      are the survivors of each part, in the same order. */
  lemma {:induction false} DeleteManyAppend<T>(a: seq<T>, b: seq<T>, matches: T -> bool)
    ensures DeleteMany(a + b, matches) == DeleteMany(a, matches) + DeleteMany(b, matches)
  {
    if |a| == 0 {
      assert a + b == b;
    } else {
      assert (a + b)[0] == a[0];
      assert (a + b)[1..] == a[1..] + b;
      DeleteManyAppend(a[1..], b, matches);
    }
  }

  /** `deleteMany` is idempotent. */
  lemma DeleteManyIdempotent<T>(docs: seq<T>, matches: T -> bool)
    ensures DeleteMany(DeleteMany(docs, matches), matches) == DeleteMany(docs, matches)
  {
    var r := DeleteMany(docs, matches);
    assert forall j :: 0 <= j < |r| ==> r[j] in r;
    DeleteManyNoMatch(r, matches);
  }

  /** `deleteMany` reports as deleted exactly the matched documents. */
  function DeletedCount<T>(docs: seq<T>, matches: T -> bool): (n: nat)
    ensures n == |docs| - |DeleteMany(docs, matches)|
    ensures n == 0 <==> forall j :: 0 <= j < |docs| ==> !matches(docs[j])
  {
    if |docs| == 0 then 0
    else (if matches(docs[0]) then 1 else 0) + DeletedCount(docs[1..], matches)
  }
}
