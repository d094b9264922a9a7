/** The merger's ordered list of source files and the list operations
    behind its handlers: admitting dropped or chosen files, removal by id,
    and the `arrayMove` reorder of the drag-and-drop list. */
module SourceList {
  import opened Pdf
  import Seqs

  /** One listed source: its id, file name, byte size and bytes. */
  datatype Entry = Entry(id: string, name: string, size: nat, bytes: FileBytes)

  /** A file offered by a drop or the picker. `drawnId` is the random id
      the handler would give it (`Math.random().toString(36)`), drawn by
      the caller. */
  datatype Incoming = Incoming(drawnId: string, name: string, mime: string, size: nat, bytes: FileBytes)

  predicate IsPdf(f: Incoming) {
    f.mime == PdfMime
  }

  function EntryOf(f: Incoming): Entry {
    Entry(f.drawnId, f.name, f.size, f.bytes)
  }

  /** The entries made for the files whose type is PDF, in input order;
      every other file is dropped. */
  function Admit(files: seq<Incoming>): (r: seq<Entry>)
    ensures |r| <= |files|
    ensures forall j :: 0 <= j < |files| && IsPdf(files[j]) ==> EntryOf(files[j]) in r
    ensures forall k :: 0 <= k < |r| ==> Admitted(files, r[k])
    ensures r == [] <==> forall j :: 0 <= j < |files| ==> !IsPdf(files[j])
    decreases |files|
  {
    if |files| == 0 then []
    else
      var rest := Admit(files[1..]);
      AdmittedFromTail(files, rest);
      if IsPdf(files[0]) then
        var r := [EntryOf(files[0])] + rest;
        assert forall k :: 1 <= k < |r| ==> r[k] == rest[k - 1];
        assert Admitted(files, r[0]) by { assert IsPdf(files[0]); }
        r
      else
        rest
  }

  /** `e` is the entry made for one of the PDFs among `files`. */
  predicate Admitted(files: seq<Incoming>, e: Entry) {
    exists j :: 0 <= j < |files| && IsPdf(files[j]) && e == EntryOf(files[j])
  }

  /** Entries admitted from the tail of a batch are admitted from the
      batch; and a PDF in the batch past its head is a PDF in the tail. */
  lemma AdmittedFromTail(files: seq<Incoming>, rest: seq<Entry>)
    requires |files| > 0
    requires forall k :: 0 <= k < |rest| ==> Admitted(files[1..], rest[k])
    ensures forall k :: 0 <= k < |rest| ==> Admitted(files, rest[k])
    ensures forall j :: 1 <= j < |files| ==> files[j] == files[1..][j - 1]
  {
    forall k | 0 <= k < |rest|
      ensures Admitted(files, rest[k])
    {
      var tail := files[1..];
      assert Admitted(tail, rest[k]);
      var j :| 0 <= j < |tail| && IsPdf(tail[j]) && rest[k] == EntryOf(tail[j]);
      assert files[j + 1] == tail[j];
    }
  }

  /** Admission keeps input order: the entries for two batches one after
      the other are those of the first batch, then those of the second. */
  lemma {:induction false} AdmitConcat(a: seq<Incoming>, b: seq<Incoming>)
    ensures Admit(a + b) == Admit(a) + Admit(b)
    decreases |a|
  {
    if |a| == 0 {
      assert a + b == b;
    } else {
      assert (a + b)[1..] == a[1..] + b;
      AdmitConcat(a[1..], b);
    }
  }

  function Names(entries: seq<Entry>): set<string> {
    set k | 0 <= k < |entries| :: entries[k].name
  }

  function Ids(entries: seq<Entry>): (ids: seq<string>)
    ensures |ids| == |entries|
    ensures forall k :: 0 <= k < |entries| ==> ids[k] == entries[k].id
  {
    seq(|entries|, k requires 0 <= k < |entries| => entries[k].id)
  }

  /** `findIndex(item => item.id === id)`: the first position holding the
      id, or -1 when no entry has it. */
  function FindIndex(entries: seq<Entry>, id: string): (i: int)
    ensures -1 <= i < |entries|
    ensures i >= 0 ==> entries[i].id == id && forall j :: 0 <= j < i ==> entries[j].id != id
    ensures i == -1 <==> forall j :: 0 <= j < |entries| ==> entries[j].id != id
    decreases |entries|
  {
    if |entries| == 0 then -1
    else if entries[0].id == id then 0
    else
      var i := FindIndex(entries[1..], id);
      if i == -1 then -1 else i + 1
  }

  /** `filter(file => file.id !== id)`: every entry with the id goes, the
      others stay in order. */
  function RemoveById(entries: seq<Entry>, id: string): (r: seq<Entry>)
    ensures forall k :: 0 <= k < |r| ==> r[k].id != id && r[k] in entries
    ensures forall k :: 0 <= k < |entries| && entries[k].id != id ==> entries[k] in r
  {
    Seqs.Filter(entries, (e: Entry) => e.id != id)
  }

  /** Removal keeps relative order. */
  lemma RemoveByIdKeepsOrder(a: seq<Entry>, b: seq<Entry>, id: string)
    ensures RemoveById(a + b, id) == RemoveById(a, id) + RemoveById(b, id)
  {
    Seqs.FilterConcat(a, b, (e: Entry) => e.id != id);
  }

  /** `s` without its element at `i`. */
  function RemoveAt<T>(s: seq<T>, i: nat): seq<T>
    requires i < |s|
  {
    s[..i] + s[i + 1..]
  }

  /** Where `arrayMove` takes the element from: `splice(from, 1)` counts a
      negative `from` from the end. */
  function MoveSource(n: nat, from: int): int {
    if from < 0 then n + from else from
  }

  /** Where `arrayMove` puts the element: a negative `to` is first counted
      from the end of the full array, then `splice` clamps the position
      into the array that lost the element. */
  function MoveTarget(n: nat, to: int): int {
    var t := if to < 0 then n + to else to;
    if t < 0 then (if n - 1 + t < 0 then 0 else n - 1 + t)
    else if t > n - 1 then n - 1 else t
  }

  /** `arrayMove(array, from, to)` of dnd-kit: the element at `from` is
      taken out and inserted at `to`. Nothing is lost or duplicated, the
      moved element lands at its target, and the other elements keep
      their relative order. */
  function ArrayMove<T>(s: seq<T>, from: int, to: int): (r: seq<T>)
    requires -|s| <= from < |s|
    ensures |r| == |s| && multiset(r) == multiset(s)
    ensures 0 <= MoveTarget(|s|, to) < |s| && 0 <= MoveSource(|s|, from) < |s|
    ensures r[MoveTarget(|s|, to)] == s[MoveSource(|s|, from)]
    ensures RemoveAt(r, MoveTarget(|s|, to)) == RemoveAt(s, MoveSource(|s|, from))
  {
    var f := MoveSource(|s|, from);
    var t := MoveTarget(|s|, to);
    var rest := RemoveAt(s, f);
    var r := rest[..t] + [s[f]] + rest[t..];
    assert s == s[..f] + [s[f]] + s[f + 1..];
    assert multiset(s) == multiset(rest) + multiset{s[f]};
    assert rest == rest[..t] + rest[t..];
    assert multiset(r) == multiset(rest[..t]) + multiset{s[f]} + multiset(rest[t..]);
    assert r[..t] == rest[..t] && r[t + 1..] == rest[t..];
    r
  }

  /** A sequence is determined by its element at `i` and what is left
      once that element is removed. */
  lemma RemoveAtDetermines<T>(a: seq<T>, b: seq<T>, i: nat)
    requires i < |a| && |a| == |b| && a[i] == b[i] && RemoveAt(a, i) == RemoveAt(b, i)
    ensures a == b
  {
    forall k | 0 <= k < |a| ensures a[k] == b[k] {
      if k < i {
        assert a[k] == RemoveAt(a, i)[k] && b[k] == RemoveAt(b, i)[k];
      } else if k > i {
        assert a[k] == RemoveAt(a, i)[k - 1] && b[k] == RemoveAt(b, i)[k - 1];
      }
    }
  }

  /** With both positions inside the list, the element from `from` ends at
      `to`, and moving it back restores the list. */
  lemma ArrayMoveUndo<T>(s: seq<T>, from: int, to: int)
    requires 0 <= from < |s| && 0 <= to < |s|
    ensures ArrayMove(s, from, to)[to] == s[from]
    ensures ArrayMove(ArrayMove(s, from, to), to, from) == s
  {
    var r := ArrayMove(s, from, to);
    var back := ArrayMove(r, to, from);
    RemoveAtDetermines(back, s, from);
  }

  lemma IdsOfRemoveAt(s: seq<Entry>, i: nat)
    requires i < |s|
    ensures Ids(RemoveAt(s, i)) == RemoveAt(Ids(s), i)
  {
  }

  /** `arrayMove` with indices that `findIndex` returned, where -1 stands
      for a missing id: a missing source or target means the last place. */
  lemma ArrayMoveFound<T>(s: seq<T>, from: int, to: int)
    requires |s| > 0 && -1 <= from < |s| && -1 <= to < |s|
    ensures var src := if from >= 0 then from else |s| - 1;
            var dst := if to >= 0 then to else |s| - 1;
            && ArrayMove(s, from, to)[dst] == s[src]
            && RemoveAt(ArrayMove(s, from, to), dst) == RemoveAt(s, src)
  {
    assert MoveSource(|s|, from) == if from >= 0 then from else |s| - 1;
    assert MoveTarget(|s|, to) == if to >= 0 then to else |s| - 1;
  }

  /** Moving entries moves their ids the same way, so the multiset of ids
      is unchanged by a reorder. */
  lemma IdsOfArrayMove(s: seq<Entry>, from: int, to: int)
    requires -|s| <= from < |s|
    ensures Ids(ArrayMove(s, from, to)) == ArrayMove(Ids(s), from, to)
    ensures multiset(Ids(ArrayMove(s, from, to))) == multiset(Ids(s))
  {
    var f := MoveSource(|s|, from);
    var t := MoveTarget(|s|, to);
    var r := ArrayMove(s, from, to);
    var q := ArrayMove(Ids(s), from, to);
    IdsOfRemoveAt(s, f);
    IdsOfRemoveAt(r, t);
    assert RemoveAt(Ids(r), t) == RemoveAt(q, t);
    assert Ids(r)[t] == q[t];
    RemoveAtDetermines(Ids(r), q, t);
  }

  /** The reorder of `handleDragEnd`: `arrayMove` between the indices
      `findIndex` gives for the dragged id and the target id. A missing id
      has index -1, which stands for the last place. */
  function MoveById(files: seq<Entry>, active: string, target: string): (r: seq<Entry>)
    requires |files| > 0
    ensures |r| == |files| && multiset(r) == multiset(files)
    ensures multiset(Ids(r)) == multiset(Ids(files))
    ensures var from := FindIndex(files, active);
            var to := FindIndex(files, target);
            var src := if from >= 0 then from else |files| - 1;
            var dst := if to >= 0 then to else |files| - 1;
            r[dst] == files[src] && RemoveAt(r, dst) == RemoveAt(files, src)
  {
    var from := FindIndex(files, active);
    var to := FindIndex(files, target);
    IdsOfArrayMove(files, from, to);
    ArrayMoveFound(files, from, to);
    ArrayMove(files, from, to)
  }
}
