/** The splitter's range list: named 1-based inclusive page ranges, the
    text of each range's two page-number fields, and the ids that have a
    preview. Every handler of the range list is one pure transition. */
module RangeSet {
  import opened Wrappers
  import opened Text
  import Seqs

  /** One split range. `start` and `end` are the last committed numbers;
      nothing here keeps them within the document. */
  datatype Range = Range(id: int, start: int, end: int, name: string)

  /** The texts of a range's start and end fields; `None` for a field
      that has no entry yet. */
  datatype InputText = InputText(start: Option<string>, end: Option<string>)

  /** Which page-number field of a range. */
  datatype Bound = Start | End

  /** One call of `updateSplitRange(id, field, value)`. */
  datatype Edit = SetStart(first: int) | SetEnd(last: int) | SetName(newName: string)

  /** `splitRanges`, `inputValues` and the key set of `splitPreviews`. */
  datatype RangeSet = RangeSet(ranges: seq<Range>, inputs: map<int, InputText>, previews: set<int>)

  function PartName(id: int): string {
    "Part " + DecimalString(id)
  }

  function FieldText(t: InputText, b: Bound): Option<string> {
    match b
    case Start => t.start
    case End => t.end
  }

  function WithText(t: InputText, b: Bound, text: string): InputText {
    match b
    case Start => t.(start := Some(text))
    case End => t.(end := Some(text))
  }

  function BoundOf(r: Range, b: Bound): int {
    match b
    case Start => r.start
    case End => r.end
  }

  function EditOf(b: Bound, v: int): Edit {
    match b
    case Start => SetStart(v)
    case End => SetEnd(v)
  }

  function Other(b: Bound): Bound {
    match b
    case Start => End
    case End => Start
  }

  /** The entry of `inputs` for `id`, or an entry with no texts. */
  function EntryFor(inputs: map<int, InputText>, id: int): InputText {
    if id in inputs then inputs[id] else InputText(None, None)
  }

  /** Range `k` has id `k + 1`, as seeding and adding produce them. */
  predicate IdsFollowPositions(ranges: seq<Range>) {
    forall k :: 0 <= k < |ranges| ==> ranges[k].id == k + 1
  }

  predicate DistinctIds(ranges: seq<Range>) {
    forall j, k :: 0 <= j < k < |ranges| ==> ranges[j].id != ranges[k].id
  }

  /** Every range's fields show the decimal text of its committed bounds. */
  predicate FieldsShowBounds(rs: RangeSet) {
    forall k :: 0 <= k < |rs.ranges| ==>
      rs.ranges[k].id in rs.inputs
      && rs.inputs[rs.ranges[k].id]
         == InputText(Some(DecimalString(rs.ranges[k].start)), Some(DecimalString(rs.ranges[k].end)))
  }

  /** The state right after a document with `pages` pages has loaded: one
      range covering the whole document, its fields showing "1" and the
      page count. Preview keys are left as they were. */
  function Seed(rs: RangeSet, pages: nat): (r: RangeSet)
    ensures r.ranges == [Range(1, 1, pages, "Part 1")]
    ensures r.inputs == map[1 := InputText(Some("1"), Some(DecimalString(pages)))]
    ensures r.previews == rs.previews
    ensures IdsFollowPositions(r.ranges) && FieldsShowBounds(r)
  {
    assert DecimalString(1) == "1" by { assert DigitChar(1) == '1'; }
    assert PartName(1) == "Part 1";
    RangeSet([Range(1, 1, pages, PartName(1))],
             map[1 := InputText(Some(DecimalString(1)), Some(DecimalString(pages)))],
             rs.previews)
  }

  /** `addSplitRange`: a range with id one more than the current count,
      spanning the whole document and named after its id, is appended;
      its fields are (re)set to "1" and the page count. */
  function AddRange(rs: RangeSet, totalPages: int): (r: RangeSet)
    ensures |r.ranges| == |rs.ranges| + 1
    ensures r.ranges[..|rs.ranges|] == rs.ranges
    ensures var added := r.ranges[|rs.ranges|];
      && added.id == |rs.ranges| + 1
      && added.start == 1 && added.end == totalPages
      && added.name == "Part " + DecimalString(added.id)
    ensures r.inputs.Keys == rs.inputs.Keys + {|rs.ranges| + 1}
    ensures r.inputs[|rs.ranges| + 1] == InputText(Some("1"), Some(DecimalString(totalPages)))
    ensures forall id :: id in rs.inputs && id != |rs.ranges| + 1 ==> r.inputs[id] == rs.inputs[id]
    ensures r.previews == rs.previews
  {
    var id := |rs.ranges| + 1;
    RangeSet(rs.ranges + [Range(id, 1, totalPages, PartName(id))],
             rs.inputs[id := InputText(Some(DecimalString(1)), Some(DecimalString(totalPages)))],
             rs.previews)
  }

  /** The ranges whose id is not `id`, in their original order. */
  function Without(ranges: seq<Range>, id: int): seq<Range> {
    Seqs.Filter(ranges, (x: Range) => x.id != id)
  }

  /** `removeSplitRange`: every range with this id goes, the others stay
      in order; the id's field texts and preview key go, no other key does. */
  function RemoveRange(rs: RangeSet, id: int): (r: RangeSet)
    ensures forall k :: 0 <= k < |r.ranges| ==> r.ranges[k].id != id && r.ranges[k] in rs.ranges
    ensures forall k :: 0 <= k < |rs.ranges| && rs.ranges[k].id != id ==> rs.ranges[k] in r.ranges
    ensures r.inputs.Keys == rs.inputs.Keys - {id}
    ensures forall k :: k in r.inputs ==> r.inputs[k] == rs.inputs[k]
    ensures r.previews == rs.previews - {id}
    ensures r.ranges == Without(rs.ranges, id)
  {
    RangeSet(Without(rs.ranges, id), rs.inputs - {id}, rs.previews - {id})
  }

  /** One field of one range replaced; id and the other fields kept. */
  function Apply(x: Range, e: Edit): (y: Range)
    ensures y.id == x.id
    ensures y.start == (if e.SetStart? then e.first else x.start)
    ensures y.end == (if e.SetEnd? then e.last else x.end)
    ensures y.name == (if e.SetName? then e.newName else x.name)
  {
    match e
    case SetStart(v) => x.(start := v)
    case SetEnd(v) => x.(end := v)
    case SetName(n) => x.(name := n)
  }

  /** `updateSplitRange`: every range with this id gets the edit, every
      other range is untouched; field texts and previews are untouched. */
  function UpdateRange(rs: RangeSet, id: int, e: Edit): (r: RangeSet)
    ensures |r.ranges| == |rs.ranges|
    ensures forall k :: 0 <= k < |rs.ranges| && rs.ranges[k].id != id ==> r.ranges[k] == rs.ranges[k]
    ensures forall k :: 0 <= k < |rs.ranges| && rs.ranges[k].id == id ==> r.ranges[k] == Apply(rs.ranges[k], e)
    ensures r.inputs == rs.inputs && r.previews == rs.previews
  {
    rs.(ranges := seq(|rs.ranges|, k requires 0 <= k < |rs.ranges| =>
                        if rs.ranges[k].id == id then Apply(rs.ranges[k], e) else rs.ranges[k]))
  }

  /** `handleInputChange`: the text of one field of one id is replaced,
      creating the id's entry when it has none; nothing else changes. */
  function InputChange(rs: RangeSet, id: int, b: Bound, text: string): (r: RangeSet)
    ensures r.inputs.Keys == rs.inputs.Keys + {id}
    ensures FieldText(r.inputs[id], b) == Some(text)
    ensures FieldText(r.inputs[id], Other(b)) == FieldText(EntryFor(rs.inputs, id), Other(b))
    ensures forall k :: k in rs.inputs && k != id ==> r.inputs[k] == rs.inputs[k]
    ensures r.ranges == rs.ranges && r.previews == rs.previews
  {
    rs.(inputs := rs.inputs[id := WithText(EntryFor(rs.inputs, id), b, text)])
  }

  /** The value a field's text commits to. Missing, empty, unparsable and
      zero texts all fall back (`parseInt(text) || fallback`); any other
      parsed integer is kept as it is, negative or beyond the document. */
  function CommitValue(text: Option<string>, fallback: int): (v: int)
    ensures text == None || text == Some("") ==> v == fallback
    ensures text.Some? && ParseInt(text.value) == None ==> v == fallback
    ensures text.Some? && ParseInt(text.value) == Some(0) ==> v == fallback
    ensures text.Some? && ParseInt(text.value).Some? && ParseInt(text.value).value != 0
            ==> v == ParseInt(text.value).value
  {
    var current := text.GetOr("");
    if current == "" then fallback
    else match ParseInt(current)
      case None => fallback
      case Some(n) => if n == 0 then fallback else n
  }

  /** The value an empty field commits to: page 1 for the start, the last
      page for the end. */
  function Fallback(b: Bound, totalPages: int): int {
    match b
    case Start => 1
    case End => totalPages
  }

  /** The number a blur of field `b` of `id` commits. */
  function Committed(rs: RangeSet, id: int, b: Bound, totalPages: int): int {
    CommitValue(FieldText(EntryFor(rs.inputs, id), b), Fallback(b, totalPages))
  }

  /** Setting one bound of a range moves that bound only. */
  lemma SetBound(x: Range, b: Bound, v: int)
    ensures BoundOf(Apply(x, EditOf(b, v)), b) == v
    ensures BoundOf(Apply(x, EditOf(b, v)), Other(b)) == BoundOf(x, Other(b))
    ensures Apply(x, EditOf(b, v)).id == x.id && Apply(x, EditOf(b, v)).name == x.name
  {
  }

  /** `handleInputBlur`: the field's text is committed to a number, the
      ranges with this id store it, and the field text becomes the
      number's decimal string, which parses back to the stored number. */
  function InputBlur(rs: RangeSet, id: int, b: Bound, totalPages: int): (r: RangeSet)
    ensures |r.ranges| == |rs.ranges|
    ensures forall k :: 0 <= k < |rs.ranges| && rs.ranges[k].id == id ==>
              && BoundOf(r.ranges[k], b) == Committed(rs, id, b, totalPages)
              && BoundOf(r.ranges[k], Other(b)) == BoundOf(rs.ranges[k], Other(b))
              && r.ranges[k].id == id && r.ranges[k].name == rs.ranges[k].name
    ensures forall k :: 0 <= k < |rs.ranges| && rs.ranges[k].id != id ==> r.ranges[k] == rs.ranges[k]
    ensures r.inputs.Keys == rs.inputs.Keys + {id}
    ensures FieldText(r.inputs[id], b) == Some(DecimalString(Committed(rs, id, b, totalPages)))
    ensures ParseInt(FieldText(r.inputs[id], b).value) == Some(Committed(rs, id, b, totalPages))
    ensures FieldText(r.inputs[id], Other(b)) == FieldText(EntryFor(rs.inputs, id), Other(b))
    ensures forall k :: k in rs.inputs && k != id ==> r.inputs[k] == rs.inputs[k]
    ensures r.previews == rs.previews
  {
    var v := Committed(rs, id, b, totalPages);
    ParseIntRoundTrip(v);
    forall x: Range { SetBound(x, b, v); }
    InputChange(UpdateRange(rs, id, EditOf(b, v)), id, b, DecimalString(v))
  }

  /** A committed number, written out and committed again, is the same
      number: its decimal string parses back to it, and a zero can only
      have come from the fallback. */
  lemma RecommitKeeps(text: Option<string>, fallback: int)
    ensures CommitValue(Some(DecimalString(CommitValue(text, fallback))), fallback) == CommitValue(text, fallback)
  {
    ParseIntRoundTrip(CommitValue(text, fallback));
  }

  /** Committing a field a second time changes nothing: the text the first
      commit left parses back to the value it stored, and a stored zero
      can only be the fallback itself. */
  lemma {:induction false} InputBlurIdempotent(rs: RangeSet, id: int, b: Bound, totalPages: int)
    ensures InputBlur(InputBlur(rs, id, b, totalPages), id, b, totalPages) == InputBlur(rs, id, b, totalPages)
  {
    var once := InputBlur(rs, id, b, totalPages);
    var twice := InputBlur(once, id, b, totalPages);
    var v := Committed(rs, id, b, totalPages);
    assert FieldText(EntryFor(once.inputs, id), b) == Some(DecimalString(v));
    RecommitKeeps(FieldText(EntryFor(rs.inputs, id), b), Fallback(b, totalPages));
    assert Committed(once, id, b, totalPages) == v;
    StoreTwice(rs, id, b, v, DecimalString(v));
  }

  /** Storing the same number and text for the same field twice is
      storing them once. */
  lemma StoreTwice(rs: RangeSet, id: int, b: Bound, v: int, text: string)
    ensures var once := InputChange(UpdateRange(rs, id, EditOf(b, v)), id, b, text);
            InputChange(UpdateRange(once, id, EditOf(b, v)), id, b, text) == once
  {
    var once := InputChange(UpdateRange(rs, id, EditOf(b, v)), id, b, text);
    var twice := InputChange(UpdateRange(once, id, EditOf(b, v)), id, b, text);
    assert twice.ranges == once.ranges;
    assert twice.inputs == once.inputs;
  }

  /** An edit never changes an id, so ids stay in step with positions. */
  lemma UpdateRangeKeepsIdsInStep(rs: RangeSet, id: int, e: Edit)
    requires IdsFollowPositions(rs.ranges)
    ensures IdsFollowPositions(UpdateRange(rs, id, e).ranges)
  {
  }

  /** Renaming touches neither bounds nor texts, so every field still
      shows its committed bounds. */
  lemma RenameKeepsFieldsShowingBounds(rs: RangeSet, id: int, name: string)
    requires FieldsShowBounds(rs)
    ensures FieldsShowBounds(UpdateRange(rs, id, SetName(name)))
  {
    var r := UpdateRange(rs, id, SetName(name));
    forall k | 0 <= k < |r.ranges|
      ensures r.ranges[k].id == rs.ranges[k].id
      ensures r.ranges[k].start == rs.ranges[k].start && r.ranges[k].end == rs.ranges[k].end
    {
    }
  }

  /** Typing `text` into a field and leaving it: the ranges with the id
      store what `text` commits to, and the field shows that number. */
  lemma TypeThenBlur(rs: RangeSet, id: int, b: Bound, text: string, totalPages: int)
    ensures var r := InputBlur(InputChange(rs, id, b, text), id, b, totalPages);
      var v := CommitValue(Some(text), Fallback(b, totalPages));
      && (forall k :: 0 <= k < |rs.ranges| && rs.ranges[k].id == id ==> BoundOf(r.ranges[k], b) == v)
      && FieldText(r.inputs[id], b) == Some(DecimalString(v))
      && FieldText(r.inputs[id], Other(b)) == FieldText(EntryFor(rs.inputs, id), Other(b))
  {
    var typed := InputChange(rs, id, b, text);
    assert FieldText(EntryFor(typed.inputs, id), b) == Some(text);
    assert FieldText(EntryFor(typed.inputs, id), Other(b)) == FieldText(EntryFor(rs.inputs, id), Other(b));
  }

  /** Typing breaks the link between a field and its bound only until the
      field is left: afterwards every field shows its committed bounds
      again. */
  lemma TypeThenBlurShowsBounds(rs: RangeSet, id: int, b: Bound, text: string, totalPages: int)
    requires FieldsShowBounds(rs)
    ensures FieldsShowBounds(InputBlur(InputChange(rs, id, b, text), id, b, totalPages))
  {
    var typed := InputChange(rs, id, b, text);
    var r := InputBlur(typed, id, b, totalPages);
    TypeThenBlur(rs, id, b, text, totalPages);
    forall k | 0 <= k < |r.ranges|
      ensures r.ranges[k].id in r.inputs
      ensures r.inputs[r.ranges[k].id]
              == InputText(Some(DecimalString(r.ranges[k].start)), Some(DecimalString(r.ranges[k].end)))
    {
      var x := rs.ranges[k];
      if x.id == id {
        assert FieldText(rs.inputs[id], Other(b)) == Some(DecimalString(BoundOf(x, Other(b))));
        ShowsBounds(r.inputs[id], r.ranges[k], b);
      } else {
        assert r.ranges[k] == x && r.inputs[x.id] == typed.inputs[x.id] == rs.inputs[x.id];
      }
    }
  }

  /** Field texts showing both bounds of a range, one field at a time. */
  lemma ShowsBounds(t: InputText, x: Range, b: Bound)
    requires FieldText(t, b) == Some(DecimalString(BoundOf(x, b)))
    requires FieldText(t, Other(b)) == Some(DecimalString(BoundOf(x, Other(b))))
    ensures t == InputText(Some(DecimalString(x.start)), Some(DecimalString(x.end)))
  {
  }

  /** Ids that follow positions are distinct. */
  lemma IdsFollowPositionsDistinct(ranges: seq<Range>)
    requires IdsFollowPositions(ranges)
    ensures DistinctIds(ranges)
  {
  }

  /** Adding keeps ids in step with positions, and so keeps them distinct,
      as long as no range was removed from the middle of the list. */
  lemma AddRangeKeepsIdsInStep(rs: RangeSet, totalPages: int)
    requires IdsFollowPositions(rs.ranges)
    ensures IdsFollowPositions(AddRange(rs, totalPages).ranges)
    ensures DistinctIds(AddRange(rs, totalPages).ranges)
  {
    var r := AddRange(rs, totalPages);
    assert forall k :: 0 <= k < |rs.ranges| ==> r.ranges[k] == rs.ranges[k];
  }

  /** Adding keeps every field showing its committed bounds when ids are in
      step with positions: the added id had no range before. */
  lemma AddRangeKeepsFieldsShowingBounds(rs: RangeSet, totalPages: int)
    requires IdsFollowPositions(rs.ranges) && FieldsShowBounds(rs)
    ensures FieldsShowBounds(AddRange(rs, totalPages))
  {
    var r := AddRange(rs, totalPages);
    assert forall k :: 0 <= k < |rs.ranges| ==> r.ranges[k] == rs.ranges[k];
  }

  /** Removing keeps every remaining field showing its committed bounds. */
  lemma RemoveRangeKeepsFieldsShowingBounds(rs: RangeSet, id: int)
    requires FieldsShowBounds(rs)
    ensures FieldsShowBounds(RemoveRange(rs, id))
  {
    var r := RemoveRange(rs, id);
    forall k | 0 <= k < |r.ranges|
      ensures r.ranges[k].id in r.inputs
      ensures r.inputs[r.ranges[k].id]
              == InputText(Some(DecimalString(r.ranges[k].start)), Some(DecimalString(r.ranges[k].end)))
    {
      var j :| 0 <= j < |rs.ranges| && rs.ranges[j] == r.ranges[k];
    }
  }

  /** Removal keeps relative order: removing from a list split in two is
      removing from each part. */
  lemma RemoveRangeKeepsOrder(a: seq<Range>, b: seq<Range>, id: int)
    ensures Without(a + b, id) == Without(a, id) + Without(b, id)
  {
    Seqs.FilterConcat(a, b, (x: Range) => x.id != id);
  }

  /** Removing an id no range has leaves the list as it was. */
  lemma RemoveAbsentId(rs: RangeSet, id: int)
    requires forall k :: 0 <= k < |rs.ranges| ==> rs.ranges[k].id != id
    ensures RemoveRange(rs, id).ranges == rs.ranges
  {
    Seqs.FilterKeepsAll(rs.ranges, (x: Range) => x.id != id);
  }

  /** Ids are `length + 1`, not a running counter: with ranges 1 and 2,
      removing range 1 and adding a range gives two ranges with id 2, and
      from then on an edit or a removal of id 2 hits both. */
  lemma RemoveThenAddRepeatsId(totalPages: int)
    ensures var before := RangeSet([Range(1, 1, totalPages, "Part 1"), Range(2, 1, totalPages, "Part 2")], map[], {});
      var after := AddRange(RemoveRange(before, 1), totalPages);
      && |after.ranges| == 2
      && after.ranges[0].id == 2 && after.ranges[1].id == 2
      && !DistinctIds(after.ranges)
      && |RemoveRange(after, 2).ranges| == 0
  {
    var first := Range(1, 1, totalPages, "Part 1");
    var second := Range(2, 1, totalPages, "Part 2");
    var before := RangeSet([first, second], map[], {});
    WithoutFirstOfTwo(first, second, 1);
    var removed := RemoveRange(before, 1);
    assert removed.ranges == [second];
    var after := AddRange(removed, totalPages);
    assert after.ranges[0] == second;
    Seqs.FilterKeepsNone(after.ranges, (x: Range) => x.id != 2);
  }

  lemma WithoutFirstOfTwo(a: Range, b: Range, id: int)
    requires a.id == id && b.id != id
    ensures Without([a, b], id) == [b]
  {
    var keep := (x: Range) => x.id != id;
    assert [a, b][1..] == [b];
    assert [b][1..] == [];
    assert Seqs.Filter([b], keep) == [b];
  }
}
