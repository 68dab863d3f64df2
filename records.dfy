/**
 * The list operations both admin pages perform on id-keyed records: edit by
 * id (`map` with an id test), add with the next free id
 * (`Math.max(...ids, 0) + 1`) and delete by id (`filter`), plus the tag-list
 * rules of the project form.
 */
module Records {
  import opened Wrappers
  import Text

  /** A record of the admin lists: a numeric id and the other fields. */
  datatype Record<F> = Record(id: int, fields: F)

  predicate HasId<F>(rs: seq<Record<F>>, id: int) {
    exists i :: 0 <= i < |rs| && rs[i].id == id
  }

  /** No two records share an id. */
  predicate UniqueIds<F>(rs: seq<Record<F>>) {
    forall i, j :: 0 <= i < j < |rs| ==> rs[i].id != rs[j].id
  }

  // ---------------------------------------------------------------------------
  // Filtering, shared by record deletion and tag removal

  /** `xs.filter(keep)`. */
  function Filter<T>(xs: seq<T>, keep: T -> bool): (r: seq<T>)
    ensures |r| <= |xs|
    ensures forall i :: 0 <= i < |r| ==> r[i] in xs && keep(r[i])
    ensures forall i :: 0 <= i < |xs| && keep(xs[i]) ==> xs[i] in r
    decreases |xs|
  {
    if xs == [] then []
    else if keep(xs[0]) then [xs[0]] + Filter(xs[1..], keep)
    else Filter(xs[1..], keep)
  }

  /** Filtering keeps the order: it distributes over concatenation. */
  lemma {:induction false} FilterAppend<T>(a: seq<T>, b: seq<T>, keep: T -> bool)
    ensures Filter(a + b, keep) == Filter(a, keep) + Filter(b, keep)
    decreases |a|
  {
    if a == [] {
      assert a + b == b;
    } else {
      assert (a + b)[0] == a[0];
      assert (a + b)[1..] == a[1..] + b;
      FilterAppend(a[1..], b, keep);
      if keep(a[0]) {
        assert [a[0]] + (Filter(a[1..], keep) + Filter(b, keep))
            == ([a[0]] + Filter(a[1..], keep)) + Filter(b, keep);
      }
    }
  }

  /** A filter that drops nothing leaves the list as it was. */
  lemma {:induction false} FilterKeepsAll<T>(xs: seq<T>, keep: T -> bool)
    requires forall i :: 0 <= i < |xs| ==> keep(xs[i])
    ensures Filter(xs, keep) == xs
    decreases |xs|
  {
    if xs != [] {
      FilterKeepsAll(xs[1..], keep);
    }
  }

  /** Filtering twice with the same test is filtering once. */
  lemma FilterIdempotent<T>(xs: seq<T>, keep: T -> bool)
    ensures Filter(Filter(xs, keep), keep) == Filter(xs, keep)
  {
    var r := Filter(xs, keep);
    assert forall i :: 0 <= i < |r| ==> r[i] in r;
    FilterKeepsAll(r, keep);
  }

  /** Without duplicates before, without duplicates after. */
  lemma {:induction false} FilterDistinct<T>(xs: seq<T>, keep: T -> bool)
    requires Distinct(xs)
    ensures Distinct(Filter(xs, keep))
    decreases |xs|
  {
    if xs != [] {
      FilterDistinct(xs[1..], keep);
      assert xs[0] !in xs[1..];
    }
  }

  // ---------------------------------------------------------------------------
  // Deleting by id

  /** `records.filter(r => r.id !== id)`. */
  function RemoveById<F>(rs: seq<Record<F>>, id: int): (r: seq<Record<F>>)
    ensures forall i :: 0 <= i < |r| ==> r[i] in rs && r[i].id != id
    ensures forall i :: 0 <= i < |rs| && rs[i].id != id ==> rs[i] in r
    ensures !HasId(r, id)
  {
    Filter(rs, (x: Record<F>) => x.id != id)
  }

  /** Deleting an id that is not there changes nothing. */
  lemma RemoveAbsent<F>(rs: seq<Record<F>>, id: int)
    requires !HasId(rs, id)
    ensures RemoveById(rs, id) == rs
  {
    FilterKeepsAll(rs, (x: Record<F>) => x.id != id);
  }

  /** The records kept stay in their order: deleting distributes over concatenation. */
  lemma RemoveAppend<F>(a: seq<Record<F>>, b: seq<Record<F>>, id: int)
    ensures RemoveById(a + b, id) == RemoveById(a, id) + RemoveById(b, id)
  {
    FilterAppend(a, b, (x: Record<F>) => x.id != id);
  }

  /** With unique ids, deleting the record at `k` removes exactly that one. */
  lemma RemoveUnique<F>(rs: seq<Record<F>>, k: nat)
    requires UniqueIds(rs) && k < |rs|
    ensures RemoveById(rs, rs[k].id) == rs[..k] + rs[k + 1..]
  {
    var id := rs[k].id;
    var before, after := rs[..k], rs[k + 1..];
    assert rs == before + ([rs[k]] + after);
    RemoveAppend(before, [rs[k]] + after, id);
    RemoveAppend([rs[k]], after, id);
    IdOnlyAt(rs, k);
    RemoveAbsent(before, id);
    RemoveAbsent(after, id);
    assert RemoveById([rs[k]], id) == [];
  }

  lemma IdOnlyAt<F>(rs: seq<Record<F>>, k: nat)
    requires UniqueIds(rs) && k < |rs|
    ensures !HasId(rs[..k], rs[k].id) && !HasId(rs[k + 1..], rs[k].id)
  {
    assert forall i :: 0 <= i < k ==> rs[..k][i] == rs[i];
    assert forall i :: k + 1 <= i < |rs| ==> rs[k + 1..][i - k - 1] == rs[i];
  }

  lemma RemoveKeepsUnique<F>(rs: seq<Record<F>>, id: int)
    requires UniqueIds(rs)
    ensures UniqueIds(RemoveById(rs, id))
  {
    var keep := (x: Record<F>) => x.id != id;
    FilterUniqueIds(rs, keep);
  }

  lemma {:induction false} FilterUniqueIds<F>(rs: seq<Record<F>>, keep: Record<F> -> bool)
    requires UniqueIds(rs)
    ensures UniqueIds(Filter(rs, keep))
    decreases |rs|
  {
    if rs != [] {
      FilterUniqueIds(rs[1..], keep);
      var tail := Filter(rs[1..], keep);
      forall k | 0 <= k < |tail| ensures tail[k].id != rs[0].id {
        var i :| 0 <= i < |rs[1..]| && rs[1..][i] == tail[k];
        assert rs[1 + i] == tail[k];
      }
    }
  }

  // ---------------------------------------------------------------------------
  // Editing by id

  /** `records.map(r => r.id === id ? { ...fields, id } : r)`. */
  function ReplaceById<F>(rs: seq<Record<F>>, id: int, fields: F): (r: seq<Record<F>>)
    ensures |r| == |rs|
    ensures forall i :: 0 <= i < |rs| && rs[i].id == id ==> r[i] == Record(id, fields)
    ensures forall i :: 0 <= i < |rs| && rs[i].id != id ==> r[i] == rs[i]
    decreases |rs|
  {
    if rs == [] then []
    else [if rs[0].id == id then Record(id, fields) else rs[0]] + ReplaceById(rs[1..], id, fields)
  }

  /** Editing never changes any id, so it keeps ids unique. */
  lemma ReplaceKeepsIds<F>(rs: seq<Record<F>>, id: int, fields: F)
    ensures forall i :: 0 <= i < |rs| ==> ReplaceById(rs, id, fields)[i].id == rs[i].id
    ensures UniqueIds(rs) ==> UniqueIds(ReplaceById(rs, id, fields))
  {
  }

  /** Editing an id that is not there changes nothing. */
  lemma ReplaceAbsent<F>(rs: seq<Record<F>>, id: int, fields: F)
    requires !HasId(rs, id)
    ensures ReplaceById(rs, id, fields) == rs
  {
  }

  /** The same edit twice is the edit once. */
  lemma ReplaceIdempotent<F>(rs: seq<Record<F>>, id: int, fields: F)
    ensures ReplaceById(ReplaceById(rs, id, fields), id, fields) == ReplaceById(rs, id, fields)
  {
  }

  /** After an edit the id's record carries the new fields, and deleting the id undoes no other record. */
  lemma ReplaceThenRemove<F>(rs: seq<Record<F>>, id: int, fields: F)
    ensures RemoveById(ReplaceById(rs, id, fields), id) == RemoveById(rs, id)
  {
    ReplaceThenRemoveFilter(rs, id, fields);
  }

  lemma {:induction false} ReplaceThenRemoveFilter<F>(rs: seq<Record<F>>, id: int, fields: F)
    ensures Filter(ReplaceById(rs, id, fields), (x: Record<F>) => x.id != id)
         == Filter(rs, (x: Record<F>) => x.id != id)
    decreases |rs|
  {
    if rs != [] {
      var r := ReplaceById(rs, id, fields);
      assert r[1..] == ReplaceById(rs[1..], id, fields);
      ReplaceThenRemoveFilter(rs[1..], id, fields);
    }
  }

  // ---------------------------------------------------------------------------
  // Adding with a fresh id

  /** `Math.max(...ids, 0)`: the largest id, or 0 when all are below 0 or there are none. */
  function MaxId<F>(rs: seq<Record<F>>): (m: int)
    ensures m >= 0
    ensures forall i :: 0 <= i < |rs| ==> rs[i].id <= m
    ensures m == 0 || HasId(rs, m)
    decreases |rs|
  {
    if rs == [] then 0
    else
      var rest := MaxId(rs[1..]);
      if rs[0].id > rest then rs[0].id
      else
        HasIdTail(rs, rest);
        rest
  }

  lemma HasIdTail<F>(rs: seq<Record<F>>, id: int)
    requires rs != [] && (id == 0 || HasId(rs[1..], id))
    ensures id == 0 || HasId(rs, id)
  {
    if id != 0 {
      var i :| 0 <= i < |rs| - 1 && rs[1..][i].id == id;
      assert rs[i + 1].id == id;
    }
  }

  /** The id a new record gets: one past the largest. */
  function NextId<F>(rs: seq<Record<F>>): (id: int)
    ensures id >= 1
    ensures forall i :: 0 <= i < |rs| ==> rs[i].id < id
    ensures !HasId(rs, id)
    ensures id == 1 || HasId(rs, id - 1)
  {
    MaxId(rs) + 1
  }

  /** `[...records, { ...fields, id: newId }]`. */
  function AddRecord<F>(rs: seq<Record<F>>, fields: F): (r: seq<Record<F>>)
    ensures |r| == |rs| + 1 && r[..|rs|] == rs
    ensures r[|rs|].fields == fields
    ensures !HasId(rs, r[|rs|].id) && r[|rs|].id >= 1
    ensures UniqueIds(rs) ==> UniqueIds(r)
  {
    rs + [Record(NextId(rs), fields)]
  }

  // ---------------------------------------------------------------------------
  // Tag lists

  ghost predicate Distinct<T>(xs: seq<T>) {
    forall i, j :: 0 <= i < j < |xs| ==> xs[i] != xs[j]
  }

  /** `stack.filter(t => t !== tag)`. */
  function Without<T(==)>(xs: seq<T>, x: T): (r: seq<T>)
    ensures forall i :: 0 <= i < |r| ==> r[i] in xs && r[i] != x
    ensures forall i :: 0 <= i < |xs| && xs[i] != x ==> xs[i] in r
  {
    Filter(xs, y => y != x)
  }

  /** Removing a tag keeps the other tags in order. */
  lemma WithoutAppend<T>(a: seq<T>, b: seq<T>, x: T)
    ensures Without(a + b, x) == Without(a, x) + Without(b, x)
  {
    FilterAppend(a, b, y => y != x);
  }

  lemma WithoutDistinct<T>(xs: seq<T>, x: T)
    requires Distinct(xs)
    ensures Distinct(Without(xs, x))
  {
    FilterDistinct(xs, y => y != x);
  }

  /**
   * `addTech`'s test: the trimmed input is accepted when it is not empty and
   * not already a tag.
   */
  function AcceptedTag(stack: seq<string>, input: string): (tag: Option<string>)
    ensures tag.Some? <==> Text.Trim(input) != "" && Text.Trim(input) !in stack
    ensures tag.Some? ==> tag.value == Text.Trim(input)
  {
    var t := Text.Trim(input);
    if t != "" && t !in stack then Some(t) else None
  }

  /** Accepting a tag keeps the stack free of duplicates and of blank tags. */
  lemma AcceptedTagKeepsDistinct(stack: seq<string>, input: string)
    requires Distinct(stack)
    requires AcceptedTag(stack, input).Some?
    ensures Distinct(stack + [AcceptedTag(stack, input).value])
  {
  }

  /** Offering an accepted tag a second time is refused. */
  lemma AcceptedTagOnce(stack: seq<string>, input: string)
    requires AcceptedTag(stack, input).Some?
    ensures AcceptedTag(stack + [AcceptedTag(stack, input).value], input).None?
  {
  }
}
