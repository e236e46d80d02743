/**
  The note list the application keeps in memory: an ordered sequence of
  records, in insertion order, which is also display order. Adding appends,
  editing rewrites the text of every note with a given id, deleting keeps
  the notes whose id differs. The two functions here are the reference
  definitions of editing and deleting; NotesApp.App applies them to its
  `notes` field.
*/
module Notes {

  /** One note: `id` and `updated` are two readings of the millisecond
      clock, taken when the note was added; they may differ. */
  datatype Note = Note(id: int, title: string, text: string, updated: int)

  predicate HasId(ns: seq<Note>, id: int) {
    exists i :: 0 <= i < |ns| && ns[i].id == id
  }

  /** Ids are unique; nothing in the application enforces this (two notes
      added in the same millisecond share an id). */
  predicate UniqueIds(ns: seq<Note>) {
    forall i, j :: 0 <= i < j < |ns| ==> ns[i].id != ns[j].id
  }

  /** Editing: every note whose id matches gets the new text; its id, title
      and timestamp stay, and every other note stays as it was. */
  function Edited(ns: seq<Note>, id: int, text: string): (r: seq<Note>)
    ensures |r| == |ns|
    ensures forall i :: 0 <= i < |ns| ==>
      r[i].id == ns[i].id && r[i].title == ns[i].title && r[i].updated == ns[i].updated
    ensures forall i :: 0 <= i < |ns| ==>
      r[i].text == if ns[i].id == id then text else ns[i].text
  {
    if ns == [] then []
    else [if ns[0].id == id then ns[0].(text := text) else ns[0]] + Edited(ns[1..], id, text)
  }

  /** Deleting: the notes whose id differs from `id`, in their order. */
  function Deleted(ns: seq<Note>, id: int): (r: seq<Note>)
    ensures |r| <= |ns|
    ensures forall i :: 0 <= i < |r| ==> r[i].id != id
  {
    if ns == [] then []
    else if ns[0].id == id then Deleted(ns[1..], id)
    else [ns[0]] + Deleted(ns[1..], id)
  }

  // ---------------------------------------------------------------------
  // Deleting

  /** Deleting distributes over concatenation, so it keeps relative order. */
  lemma {:induction false} DeletedConcat(a: seq<Note>, b: seq<Note>, id: int)
    ensures Deleted(a + b, id) == Deleted(a, id) + Deleted(b, id)
  {
    if a == [] {
      assert a + b == b;
    } else {
      assert (a + b)[1..] == a[1..] + b;
      DeletedConcat(a[1..], b, id);
    }
  }

  /** Deleting an id that no note has leaves the list unchanged. */
  lemma {:induction false} DeletedAbsent(ns: seq<Note>, id: int)
    requires !HasId(ns, id)
    ensures Deleted(ns, id) == ns
  {
    if ns != [] {
      assert ns[0].id != id;
      assert !HasId(ns[1..], id) by {
        forall i | 0 <= i < |ns[1..]| ensures ns[1..][i].id != id {
          assert ns[1..][i] == ns[i + 1];
        }
      }
      DeletedAbsent(ns[1..], id);
      assert [ns[0]] + ns[1..] == ns;
    }
  }

  /** A note survives deleting exactly when it was there and has another id. */
  lemma {:induction false} DeletedMembers(ns: seq<Note>, id: int, n: Note)
    ensures n in Deleted(ns, id) <==> n in ns && n.id != id
  {
    if ns != [] {
      DeletedMembers(ns[1..], id, n);
      assert ns == [ns[0]] + ns[1..];
    }
  }

  /** Deleting twice with the same id is deleting once. */
  lemma DeletedIdempotent(ns: seq<Note>, id: int)
    ensures Deleted(Deleted(ns, id), id) == Deleted(ns, id)
  {
    DeletedAbsent(Deleted(ns, id), id);
  }

  lemma SplitAround(ns: seq<Note>, k: nat)
    requires k < |ns|
    ensures ns == ns[..k] + ([ns[k]] + ns[k + 1..])
  {
    assert ns[k..] == [ns[k]] + ns[k + 1..];
    assert ns == ns[..k] + ns[k..];
  }

  lemma UniqueIdsParts(ns: seq<Note>, k: nat)
    requires UniqueIds(ns) && k < |ns|
    ensures !HasId(ns[..k], ns[k].id) && !HasId(ns[k + 1..], ns[k].id)
  {
  }

  /** With unique ids, deleting the id of note k removes exactly that note. */
  lemma DeletedAt(ns: seq<Note>, k: nat)
    requires UniqueIds(ns) && k < |ns|
    ensures Deleted(ns, ns[k].id) == ns[..k] + ns[k + 1..]
  {
    var id, a, b := ns[k].id, ns[..k], ns[k + 1..];
    assert Deleted(a, id) == a by {
      UniqueIdsParts(ns, k);
      DeletedAbsent(a, id);
    }
    assert Deleted([ns[k]] + b, id) == b by {
      UniqueIdsParts(ns, k);
      DeletedConcat([ns[k]], b, id);
      DeletedAbsent(b, id);
      assert Deleted([ns[k]], id) == [];
    }
    SplitAround(ns, k);
    DeletedConcat(a, [ns[k]] + b, id);
  }

  /** With unique ids the list shrinks by one when the id is present and
      not at all otherwise. */
  lemma DeletedLength(ns: seq<Note>, id: int)
    requires UniqueIds(ns)
    ensures |Deleted(ns, id)| == if HasId(ns, id) then |ns| - 1 else |ns|
  {
    if HasId(ns, id) {
      var k :| 0 <= k < |ns| && ns[k].id == id;
      DeletedAt(ns, k);
    } else {
      DeletedAbsent(ns, id);
    }
  }

  lemma RemovedUnique(ns: seq<Note>, k: nat)
    requires UniqueIds(ns) && k < |ns|
    ensures UniqueIds(ns[..k] + ns[k + 1..])
  {
    var r := ns[..k] + ns[k + 1..];
    forall i, j | 0 <= i < j < |r| ensures r[i].id != r[j].id {
      var i' := if i < k then i else i + 1;
      var j' := if j < k then j else j + 1;
      assert r[i] == ns[i'] && r[j] == ns[j'];
    }
  }

  /** Deleting keeps ids unique. */
  lemma DeletedUnique(ns: seq<Note>, id: int)
    requires UniqueIds(ns)
    ensures UniqueIds(Deleted(ns, id))
  {
    if HasId(ns, id) {
      var k :| 0 <= k < |ns| && ns[k].id == id;
      DeletedAt(ns, k);
      RemovedUnique(ns, k);
    } else {
      DeletedAbsent(ns, id);
    }
  }

  // ---------------------------------------------------------------------
  // Editing

  /** Editing an id that no note has leaves the list unchanged. */
  lemma EditedAbsent(ns: seq<Note>, id: int, text: string)
    requires !HasId(ns, id)
    ensures Edited(ns, id, text) == ns
  {
    var r := Edited(ns, id, text);
    forall i | 0 <= i < |ns| ensures r[i] == ns[i] {
      assert ns[i].id != id;
    }
  }

  /** With unique ids, editing the id of note k rewrites that note's text
      and nothing else. */
  lemma EditedAt(ns: seq<Note>, k: nat, text: string)
    requires UniqueIds(ns) && k < |ns|
    ensures Edited(ns, ns[k].id, text) == ns[k := ns[k].(text := text)]
  {
    var r := Edited(ns, ns[k].id, text);
    forall i | 0 <= i < |ns| ensures r[i] == ns[k := ns[k].(text := text)][i] {
      if i != k {
        assert ns[i].id != ns[k].id;
      }
    }
  }

  /** Editing keeps the ids, hence their uniqueness. */
  lemma EditedUnique(ns: seq<Note>, id: int, text: string)
    ensures UniqueIds(Edited(ns, id, text)) <==> UniqueIds(ns)
  {
    var r := Edited(ns, id, text);
    assert forall i :: 0 <= i < |ns| ==> r[i].id == ns[i].id;
  }

  /** The last edit of an id wins. */
  lemma EditedTwice(ns: seq<Note>, id: int, t1: string, t2: string)
    ensures Edited(Edited(ns, id, t1), id, t2) == Edited(ns, id, t2)
  {
    var a, b := Edited(Edited(ns, id, t1), id, t2), Edited(ns, id, t2);
    forall i | 0 <= i < |ns| ensures a[i] == b[i] {
    }
  }

  /** Deleting an id erases any edit made to it before. */
  lemma {:induction false} DeletedAfterEdited(ns: seq<Note>, id: int, text: string)
    ensures Deleted(Edited(ns, id, text), id) == Deleted(ns, id)
  {
    if ns != [] {
      var e := Edited(ns, id, text);
      assert e[1..] == Edited(ns[1..], id, text);
      DeletedAfterEdited(ns[1..], id, text);
    }
  }

  // ---------------------------------------------------------------------
  // Adding

  /** Appending a note whose id no note carries keeps ids unique. */
  lemma AddedUnique(ns: seq<Note>, n: Note)
    requires UniqueIds(ns) && !HasId(ns, n.id)
    ensures UniqueIds(ns + [n])
  {
    var r := ns + [n];
    forall i, j | 0 <= i < j < |r| ensures r[i].id != r[j].id {
      if j == |ns| {
        assert r[i] == ns[i];
      } else {
        assert r[i] == ns[i] && r[j] == ns[j];
      }
    }
  }

  /** Deleting the id of a freshly appended note restores the list. */
  lemma DeletedAfterAdded(ns: seq<Note>, n: Note)
    requires !HasId(ns, n.id)
    ensures Deleted(ns + [n], n.id) == ns
  {
    DeletedConcat(ns, [n], n.id);
    DeletedAbsent(ns, n.id);
    assert Deleted([n], n.id) == [];
  }
}
