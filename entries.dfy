/**
 * The list of destinations (src/app.js:48-61 and 297-309): replacing or
 * adding an entry, removing one by id, and the check an imported batch must
 * pass before it replaces the list.
 */
module Entries {
  import opened Wrappers

  /** A destination. The optional fields are null when absent; a string
      field missing from imported data is the empty string here. */
  datatype Entry = Entry(id: string, place: string, country: string, start: string, end: string,
                         mood: Option<string>, rating: Option<int>, notes: Option<string>,
                         created: int, updated: int)

  /** What an import file parsed to: not an array, or an array of entries. */
  datatype ImportData = NotArray | Items(items: seq<Entry>)

  datatype ImportOutcome = Imported | Failed(message: string)

  const UnexpectedFormat := "Format inattendu"
  const InvalidEntry := "Entrée invalide"

  /** The position of the first entry with `id`, or -1 (`findIndex`). */
  function IndexOf(s: seq<Entry>, id: string): (r: int)
    ensures -1 <= r < |s|
    ensures r == -1 <==> forall k | 0 <= k < |s| :: s[k].id != id
    ensures r >= 0 ==> s[r].id == id && forall k | 0 <= k < r :: s[k].id != id
  {
    if s == [] then -1
    else if s[0].id == id then 0
    else
      var r := IndexOf(s[1..], id);
      if r == -1 then -1 else r + 1
  }

  /** `upsertEntry`'s effect on the list: the first entry with the same id
      replaced, or the new entry put first. */
  function Upserted(s: seq<Entry>, e: Entry): seq<Entry>
  {
    var i := IndexOf(s, e.id);
    if i >= 0 then s[i := e] else [e] + s
  }

  /** `removeEntry`'s filter: the entries whose id differs, in order. */
  function Without(s: seq<Entry>, id: string): (r: seq<Entry>)
    ensures |r| <= |s|
    ensures forall k | 0 <= k < |r| :: r[k].id != id
    ensures forall k | 0 <= k < |s| && s[k].id != id :: s[k] in r
  {
    if s == [] then []
    else if s[0].id == id then Without(s[1..], id)
    else [s[0]] + Without(s[1..], id)
  }

  /** The filter keeps each entry with another id exactly as often as the
      input has it, and nothing else. */
  lemma {:induction false} WithoutCounts(s: seq<Entry>, id: string, x: Entry)
    ensures multiset(Without(s, id))[x] == if x.id == id then 0 else multiset(s)[x]
  {
    if s != [] {
      assert s == [s[0]] + s[1..];
      WithoutCounts(s[1..], id, x);
    }
  }

  /** The filter keeps order: filtering a concatenation filters each part
      and concatenates the results. */
  lemma {:induction false} WithoutConcat(a: seq<Entry>, b: seq<Entry>, id: string)
    ensures Without(a + b, id) == Without(a, id) + Without(b, id)
  {
    if a != [] {
      assert (a + b)[0] == a[0];
      assert (a + b)[1..] == a[1..] + b;
      WithoutConcat(a[1..], b, id);
      if a[0].id != id {
        assert Without(a + b, id) == [a[0]] + (Without(a[1..], id) + Without(b, id));
      }
    } else {
      assert a + b == b;
    }
  }

  /** No two entries share an id. */
  predicate DistinctIds(s: seq<Entry>)
  {
    forall j, k | 0 <= j < k < |s| :: s[j].id != s[k].id
  }

  /** An upsert keeps ids distinct, and afterwards the entry is the one
      with its id. */
  lemma UpsertKeepsDistinct(s: seq<Entry>, e: Entry)
    requires DistinctIds(s)
    ensures DistinctIds(Upserted(s, e))
    ensures IndexOf(Upserted(s, e), e.id) >= 0 && Upserted(s, e)[IndexOf(Upserted(s, e), e.id)] == e
    ensures |Upserted(s, e)| == |s| + (if IndexOf(s, e.id) >= 0 then 0 else 1)
  {
    var r := Upserted(s, e);
    if IndexOf(s, e.id) < 0 {
      assert r == [e] + s;
      assert r[0] == e;
      assert IndexOf(r, e.id) == 0;
      assert forall k | 1 <= k < |r| :: r[k] == s[k - 1];
    } else {
      var i := IndexOf(s, e.id);
      assert r == s[i := e];
      IndexOfUpdate(s, i, e);
    }
  }

  /** Overwriting the first entry with an id by another with that id keeps
      the position at which the id is first found. */
  lemma {:induction false} IndexOfUpdate(s: seq<Entry>, i: nat, e: Entry)
    requires i < |s| && IndexOf(s, e.id) == i
    ensures IndexOf(s[i := e], e.id) == i
  {
    if i > 0 {
      assert s[i := e][1..] == s[1..][i - 1 := e];
      IndexOfUpdate(s[1..], i - 1, e);
    }
  }

  /** Removing an id after upserting an entry with it leaves what removing
      it before would have left. */
  lemma {:induction false} RemoveAfterUpsert(s: seq<Entry>, e: Entry)
    ensures Without(Upserted(s, e), e.id) == Without(s, e.id)
  {
    if s != [] && s[0].id != e.id {
      RemoveAfterUpsert(s[1..], e);
      var i := IndexOf(s, e.id);
      if i >= 0 {
        assert s[i := e][1..] == s[1..][i - 1 := e];
      }
    }
  }

  /** The fields the import insists on are all present and non-empty. */
  predicate Complete(e: Entry)
  {
    e.id != "" && e.place != "" && e.start != "" && e.end != ""
  }

  /** The import check (src/app.js:303-304): a batch that is not an array
      fails with the format message; otherwise the first incomplete element
      fails the whole batch with the entry message. */
  method CheckImport(data: ImportData) returns (outcome: ImportOutcome)
    ensures data.NotArray? ==> outcome == Failed(UnexpectedFormat)
    ensures data.Items? ==>
      && (outcome == Imported <==> forall k | 0 <= k < |data.items| :: Complete(data.items[k]))
      && (outcome != Imported ==> outcome == Failed(InvalidEntry))
  {
    if data.NotArray? {
      return Failed(UnexpectedFormat);
    }
    var i := 0;
    while i < |data.items|
      invariant 0 <= i <= |data.items|
      invariant forall k | 0 <= k < i :: Complete(data.items[k])
    {
      if !Complete(data.items[i]) {
        return Failed(InvalidEntry);
      }
      i := i + 1;
    }
    return Imported;
  }

  class EntryList {
    var entries: seq<Entry>

    constructor (entries: seq<Entry>)
      ensures this.entries == entries
    {
      this.entries := entries;
    }

    /** `entries.findIndex(x => x.id === id)`. */
    method FindIndex(id: string) returns (i: int)
      ensures i == IndexOf(entries, id)
    {
      i := 0;
      while i < |entries|
        invariant 0 <= i <= |entries|
        invariant forall k | 0 <= k < i :: entries[k].id != id
      {
        if entries[i].id == id {
          return;
        }
        i := i + 1;
      }
      i := -1;
    }

    /** `upsertEntry` (src/app.js:53-57): the entry with the same id is
        replaced in place, or the new one is put first. */
    method Upsert(e: Entry)
      modifies this
      ensures entries == Upserted(old(entries), e)
    {
      var i := FindIndex(e.id);
      if i >= 0 {
        entries := entries[i := e];
      } else {
        entries := [e] + entries;
      }
    }

    /** `removeEntry` (src/app.js:58-61). */
    method Remove(id: string)
      modifies this
      ensures entries == Without(old(entries), id)
    {
      entries := Without(entries, id);
    }

    /** The import handler (src/app.js:297-309) after parsing: an accepted
        batch replaces the whole list, a rejected one leaves it as it was. */
    method Import(data: ImportData) returns (outcome: ImportOutcome)
      modifies this
      ensures outcome == Imported ==> data.Items? && entries == data.items
      ensures outcome != Imported ==> entries == old(entries)
      ensures data.NotArray? ==> outcome == Failed(UnexpectedFormat)
      ensures data.Items? ==> (outcome == Imported <==> forall k | 0 <= k < |data.items| :: Complete(data.items[k]))
      ensures data.Items? && outcome != Imported ==> outcome == Failed(InvalidEntry)
    {
      outcome := CheckImport(data);
      if outcome == Imported {
        entries := data.items;
      }
    }
  }
}
