/**
  `DocumentManager`: the open documents in tab order, the current index,
  the index waiting for close confirmation and the counter that numbers
  new documents. Every operation is a pure transition from one manager
  state to the next; file I/O is reduced to what the manager observes of
  it (whether the file opened, whether the stream was still good, the
  text read).
 */
module DocumentManager {
  import opened Timeline
  import opened Decimal
  import opened Codec

  datatype Manager = Manager(
    documents: seq<Document>,
    current: int32,
    docToClose: int32,
    counter: uint64)

  /** The state after construction: the member initialisers of the class. */
  const Fresh: Manager := Manager([], -1, -1, 0)

  /** The most documents whose count `DocumentSize` can report as an int32. */
  const MaxDocuments: int := Int32Max

  // ---------------------------------------------------------------------
  // Invariants

  /** The index invariant the operations keep: the current index is -1 or
      names a live document. */
  predicate Valid(m: Manager) {
    |m.documents| <= MaxDocuments && -1 <= m.current < |m.documents|
  }

  /** The stronger claim that the current index is -1 exactly when there
      are no documents. Loading breaks it. */
  predicate Selected(m: Manager) {
    Valid(m) && (m.current == -1 <==> |m.documents| == 0)
  }

  /** The call-order rule for `CloseDocument`: the pending index is either
      unset (negative) or names a live document, as it does right after
      `CloseDocumentWithCheck` asked for confirmation. */
  predicate CloseReady(m: Manager) {
    m.docToClose < |m.documents|
  }

  // ---------------------------------------------------------------------
  // Creating

  function NewDocumentName(n: nat): string {
    "New Document " + NatToString(n)
  }

  /** The document `CreateNewDocument` builds for counter value `n`. */
  function NewDocument(n: nat): (d: Document)
    ensures d.name == NewDocumentName(n)
    ensures !d.saved && d.path == "" && d.events == []
    ensures d.state.zoom == FloatOne && d.state.offset == FloatZero
    ensures d.state.minYear == FallbackYear && d.state.maxYear == FallbackYear
  {
    YearRangeMeaning([]);
    var range := YearRange([]);
    Document(NewDocumentName(n), false, "", [], TimelineState(FloatOne, FloatZero, range.0, range.1))
  }

  /** A new document is one the format carries unchanged: its name has no
      character that needs escaping, and zoom "1" and offset "0" are JSON
      numbers. */
  lemma NewDocumentEncodable(n: nat)
    ensures Encodable(NewDocument(n))
  {
    var name := NewDocumentName(n);
    forall i | 0 <= i < |name|
      ensures name[i] != '"' && name[i] != '\\' && name[i] >= ' '
    {
      if i >= 13 {
        assert name[i] == NatToString(n)[i - 13];
      }
    }
    NumberTokenExamples();
  }

  /** `CreateNewDocument`: bump the counter, append the new document, select it. */
  function CreateNewDocument(m: Manager): (r: Manager)
    ensures r.counter == (m.counter + 1) % TwoTo64
    ensures |r.documents| == |m.documents| + 1
    ensures r.documents[..|m.documents|] == m.documents
    ensures r.documents[|m.documents|] == NewDocument(r.counter)
    ensures |m.documents| <= Int32Max ==> r.current == |m.documents|
    ensures r.docToClose == m.docToClose
  {
    var counter := (m.counter + 1) % TwoTo64;
    var documents := m.documents + [NewDocument(counter)];
    Manager(documents, ToInt32(|documents| - 1), m.docToClose, counter)
  }

  // ---------------------------------------------------------------------
  // Reading the selection

  /** `GetCurrentDocument`: the document at the current index, or none
      (a null `Document*`) when the index is not a live position. */
  function GetCurrentDocument(m: Manager): (r: Option<Document>)
    ensures r.Some? <==> 0 <= m.current < |m.documents|
    ensures r.Some? ==> r.value == m.documents[m.current]
  {
    if m.current >= 0 && AsSizeT(m.current) < |m.documents| then Some(m.documents[m.current])
    else None
  }

  // ---------------------------------------------------------------------
  // Closing

  /** The sequence without its i-th element. */
  function RemoveAt<T>(s: seq<T>, i: nat): (r: seq<T>)
    requires i < |s|
    ensures |r| == |s| - 1
    ensures forall j :: 0 <= j < i ==> r[j] == s[j]
    ensures forall j :: i <= j < |r| ==> r[j] == s[j + 1]
  {
    s[..i] + s[i + 1..]
  }

  /** `CloseDocument`: remove the pending document, if one is set, and pull
      the current index back to the last position when it is now past the
      end. The comparison is made as `size_t`, so -1 counts as past the
      end. The current index is not shifted when an earlier document goes,
      and the pending index is not cleared. */
  function CloseDocument(m: Manager): (r: Manager)
    requires CloseReady(m)
    ensures m.docToClose < 0 ==> r == m
    ensures m.docToClose >= 0 ==>
      && |r.documents| == |m.documents| - 1
      && (forall j :: 0 <= j < m.docToClose ==> r.documents[j] == m.documents[j])
      && (forall j :: m.docToClose <= j < |r.documents| ==> r.documents[j] == m.documents[j + 1])
    ensures |m.documents| <= MaxDocuments && m.docToClose >= 0 ==>
      if m.current < 0 || m.current >= |r.documents| then r.current == |r.documents| - 1
      else r.current == m.current
    ensures r.docToClose == m.docToClose && r.counter == m.counter
  {
    if m.docToClose >= 0 then
      var documents := RemoveAt(m.documents, m.docToClose);
      var current :=
        if AsSizeT(m.current) >= |documents| then
          ToInt32(if |documents| == 0 then TwoTo64 - 1 else |documents| - 1)
        else m.current;
      m.(documents := documents, current := current)
    else m
  }

  /** The three results of `CloseDocumentWithCheck`. */
  datatype CloseOutcome =
    | Invalid                 // index out of range, nothing done
    | NeedsConfirmation(index: int32) // unsaved: recorded as pending, nothing removed
    | Closed                  // saved: removed at once

  /** The int32 the source returns for each outcome. */
  function OutcomeCode(o: CloseOutcome): int32 {
    match o
    case Invalid => -2
    case NeedsConfirmation(i) => i
    case Closed => -1
  }

  datatype CheckedClose = CheckedClose(manager: Manager, outcome: CloseOutcome)

  /** `CloseDocumentWithCheck(index)`. */
  function CloseDocumentWithCheck(m: Manager, index: int32): (r: CheckedClose)
    ensures !(0 <= index < |m.documents|) ==> r.outcome == Invalid && r.manager == m
    ensures 0 <= index < |m.documents| && !m.documents[index].saved ==>
      r.outcome == NeedsConfirmation(index) && r.manager == m.(docToClose := index)
    ensures 0 <= index < |m.documents| && m.documents[index].saved ==>
      && r.outcome == Closed
      && r.manager.documents == RemoveAt(m.documents, index)
      && r.manager == CloseDocument(m.(docToClose := index))
  {
    if index >= 0 && AsSizeT(index) < |m.documents| then
      var pending := m.(docToClose := index);
      if !m.documents[index].saved then CheckedClose(pending, NeedsConfirmation(index))
      else CheckedClose(CloseDocument(pending), Closed)
    else CheckedClose(m, Invalid)
  }

  /** The returned code tells the outcomes apart: -2 is "invalid", -1 is
      "closed", and anything else is the index waiting for confirmation,
      which is the index passed in. */
  lemma OutcomeCodeMeaning(m: Manager, index: int32)
    ensures var r := CloseDocumentWithCheck(m, index);
      && (OutcomeCode(r.outcome) == -2 <==> r.outcome == Invalid)
      && (OutcomeCode(r.outcome) == -1 <==> r.outcome == Closed)
      && (OutcomeCode(r.outcome) >= 0 <==> r.outcome.NeedsConfirmation?)
      && (OutcomeCode(r.outcome) >= 0 ==> OutcomeCode(r.outcome) == index && CloseReady(r.manager))
      && OutcomeCode(r.outcome) >= -2
  {
  }

  // ---------------------------------------------------------------------
  // Setters and slot replacement

  /** `SetCurrentDocumentIndex`: stores the index unchecked. */
  function SetCurrentDocumentIndex(m: Manager, index: int32): (r: Manager)
    ensures r.current == index
    ensures r.documents == m.documents && r.docToClose == m.docToClose && r.counter == m.counter
  {
    m.(current := index)
  }

  /** `SetDocToClose`: stores the index unchecked. */
  function SetDocToClose(m: Manager, index: int32): (r: Manager)
    ensures r.docToClose == index
    ensures r.documents == m.documents && r.current == m.current && r.counter == m.counter
  {
    m.(docToClose := index)
  }

  /** `SetDocOnIndex`: replace the document in a live slot (how a finished
      sort is committed); an index outside the collection changes nothing. */
  function SetDocOnIndex(m: Manager, document: Document, index: int): (r: Manager)
    ensures |r.documents| == |m.documents|
    ensures 0 <= index < |m.documents| ==> r.documents[index] == document
    ensures forall j :: 0 <= j < |m.documents| && j != index ==> r.documents[j] == m.documents[j]
    ensures !(0 <= index < |m.documents|) ==> r == m
    ensures r.current == m.current && r.docToClose == m.docToClose && r.counter == m.counter
  {
    if index >= 0 && index < |m.documents| then m.(documents := m.documents[index := document])
    else m
  }

  // ---------------------------------------------------------------------
  // Saving and loading

  /** What the manager sees of writing a file: whether it opened, and
      whether the stream was still good after the write and close. */
  datatype SaveIo = SaveIo(isOpen: bool, good: bool)

  datatype Written = Written(path: string, text: string)

  datatype Saved = Saved(manager: Manager, written: Option<Written>)

  /** `SaveDocument`: write the current document to its path and mark it
      saved if the stream stayed good. Nothing happens without a current
      document, for an already saved document, or for one with no path. */
  function SaveDocument(m: Manager, v: Version, io: SaveIo): (r: Saved)
    requires m.current < |m.documents|
    ensures m.current < 0 || m.documents[m.current].saved || m.documents[m.current].path == "" ==>
      r.manager == m && r.written.None?
    ensures r.written.Some? <==>
      0 <= m.current && !m.documents[m.current].saved && m.documents[m.current].path != "" && io.isOpen
    ensures r.written.Some? ==>
      r.written.value == Written(m.documents[m.current].path, SerializeDocument(m.documents[m.current], v))
    ensures |r.manager.documents| == |m.documents|
    ensures forall j :: 0 <= j < |m.documents| && j != m.current ==> r.manager.documents[j] == m.documents[j]
    ensures 0 <= m.current ==>
      r.manager.documents[m.current] ==
        m.documents[m.current].(saved := m.documents[m.current].saved || (r.written.Some? && io.good))
    ensures r.manager.current == m.current && r.manager.docToClose == m.docToClose
    ensures r.manager.counter == m.counter
  {
    if m.current < 0 || m.documents[m.current].saved || m.documents[m.current].path == "" then
      Saved(m, None)
    else if !io.isOpen then
      Saved(m, None)
    else
      var d := m.documents[m.current];
      var text := SerializeDocument(d, v);
      var m' := if io.good then m.(documents := m.documents[m.current := d.(saved := true)]) else m;
      Saved(m', Some(Written(d.path, text)))
  }

  /** What the manager sees of opening a file for reading. */
  datatype FileRead = CannotOpen | Contents(text: string)

  /** The exception the JSON parser throws out of `LoadDocument`. */
  datatype LoadError = MalformedDocument

  datatype Loaded = Loaded(manager: Manager, error: Option<LoadError>)

  /** `LoadDocument(path)`: decode the file and append the document with
      its path set. The selection is left alone. A file that does not open
      is silently ignored; a parse failure leaves the collection as it was. */
  function LoadDocument(m: Manager, path: string, file: FileRead, blank: TimelineState): (r: Loaded)
    ensures r.manager.current == m.current && r.manager.docToClose == m.docToClose
    ensures r.manager.counter == m.counter
    ensures file.CannotOpen? ==> r == Loaded(m, None)
    ensures r.error.Some? ==> r.manager == m
    ensures r.error.None? && file.Contents? ==>
      && |r.manager.documents| == |m.documents| + 1
      && r.manager.documents[..|m.documents|] == m.documents
      && r.manager.documents[|m.documents|].path == path
      && r.manager.documents[|m.documents|].saved
    ensures r.error.None? && file.Contents? ==>
      && DeserializeDocument(file.text, blank).Some?
      && r.manager.documents[|m.documents|] == DeserializeDocument(file.text, blank).value.(path := path)
    ensures file.Contents? ==>
      (r.error.None? <==> DeserializeDocument(file.text, blank).Some?)
  {
    match file
    case CannotOpen => Loaded(m, None)
    case Contents(text) =>
      match DeserializeDocument(text, blank)
      case None => Loaded(m, Some(MalformedDocument))
      case Some(d) => Loaded(m.(documents := m.documents + [d.(path := path)]), None)
  }

  // ---------------------------------------------------------------------
  // The index invariant across the operations

  lemma FreshIsValid()
    ensures Selected(Fresh) && CloseReady(Fresh)
    ensures CreateNewDocument(Fresh).documents[0].name == NewDocumentName(1)
  {
  }

  lemma CreatePreservesValid(m: Manager)
    requires Valid(m) && |m.documents| < MaxDocuments
    ensures Selected(CreateNewDocument(m))
    ensures CreateNewDocument(m).current == |m.documents|
    ensures CloseReady(m) ==> CloseReady(CreateNewDocument(m))
  {
  }

  /** Committing a close keeps the index invariant, and keeps "-1 exactly
      when empty" when that held before. */
  lemma {:induction false} CloseDocumentPreservesValid(m: Manager)
    requires Valid(m) && CloseReady(m)
    ensures Valid(CloseDocument(m))
    ensures Selected(m) ==> Selected(CloseDocument(m))
  {
    if m.docToClose >= 0 {
      var r := CloseDocument(m);
      assert |r.documents| == |m.documents| - 1;
      if m.current < 0 || m.current >= |r.documents| {
        assert r.current == |r.documents| - 1;
      } else {
        assert r.current == m.current;
      }
    }
  }

  lemma CheckedClosePreservesValid(m: Manager, index: int32)
    requires Valid(m)
    ensures Valid(CloseDocumentWithCheck(m, index).manager)
    ensures Selected(m) ==> Selected(CloseDocumentWithCheck(m, index).manager)
  {
    if 0 <= index < |m.documents| && m.documents[index].saved {
      CloseDocumentPreservesValid(m.(docToClose := index));
    }
  }

  lemma SetDocOnIndexPreservesValid(m: Manager, document: Document, index: int)
    requires Valid(m)
    ensures Selected(m) ==> Selected(SetDocOnIndex(m, document, index))
    ensures Valid(SetDocOnIndex(m, document, index))
    ensures CloseReady(m) ==> CloseReady(SetDocOnIndex(m, document, index))
  {
  }

  lemma SavePreservesValid(m: Manager, v: Version, io: SaveIo)
    requires Valid(m)
    ensures Valid(SaveDocument(m, v, io).manager)
    ensures Selected(m) ==> Selected(SaveDocument(m, v, io).manager)
  {
  }

  lemma LoadPreservesValid(m: Manager, path: string, file: FileRead, blank: TimelineState)
    requires Valid(m) && |m.documents| < MaxDocuments
    ensures Valid(LoadDocument(m, path, file, blank).manager)
    ensures CloseReady(m) ==> CloseReady(LoadDocument(m, path, file, blank).manager)
  {
  }

  /** The setters keep the invariant only when given a fitting index. */
  lemma SettersAndValid(m: Manager, index: int32)
    requires Valid(m)
    ensures Valid(SetCurrentDocumentIndex(m, index)) <==> -1 <= index < |m.documents|
    ensures Valid(SetDocToClose(m, index))
    ensures CloseReady(SetDocToClose(m, index)) <==> index < |m.documents|
  {
  }

  /** Loading into an empty manager leaves one document and no selection:
      "current is -1 exactly when there are no documents" does not hold. */
  lemma LoadBreaksSelected(d: Document, v: Version, path: string, blank: TimelineState)
    requires Encodable(d)
    ensures var r := LoadDocument(Fresh, path, Contents(SerializeDocument(d, v)), blank).manager;
      Valid(r) && !Selected(r) && |r.documents| == 1 && r.current == -1
      && GetCurrentDocument(r).None?
  {
    SerializeRoundTrip(d, v, blank);
  }

  // ---------------------------------------------------------------------
  // Close protocol quirks

  /** Closing a document before the current one does not shift the index,
      so the selection moves on to the document after the old one. */
  lemma EarlierCloseMovesSelection(m: Manager)
    requires Valid(m) && 0 <= m.docToClose < m.current && m.current + 1 < |m.documents|
    ensures var r := CloseDocument(m);
      r.current == m.current && GetCurrentDocument(r) == Some(m.documents[m.current + 1])
  {
  }

  /** The pending index is not cleared: after closing the last document
      it names no document, and a second `CloseDocument` is out of contract. */
  lemma PendingIndexGoesStale(m: Manager)
    requires Valid(m) && |m.documents| > 0 && m.docToClose == |m.documents| - 1
    ensures var r := CloseDocument(m);
      r.docToClose == m.docToClose && !CloseReady(r)
  {
  }

  /** Check then commit for an unsaved document removes exactly that
      document, as closing a saved one does at once. */
  lemma ConfirmedCloseRemoves(m: Manager, index: int32)
    requires 0 <= index < |m.documents| && !m.documents[index].saved
    ensures var pending := CloseDocumentWithCheck(m, index).manager;
      CloseReady(pending) && CloseDocument(pending).documents == RemoveAt(m.documents, index)
  {
  }

  // ---------------------------------------------------------------------
  // Numbering

  lemma CounterStep(c: uint64)
    requires c + 1 < TwoTo64
    ensures (c + 1) % TwoTo64 == c + 1
  {
  }

  function CreateTimes(m: Manager, k: nat): Manager
    decreases k
  {
    if k == 0 then m else CreateNewDocument(CreateTimes(m, k - 1))
  }

  /** After k creations in a fresh manager there are k documents, the
      counter is k, and the last one is current. */
  lemma {:induction false} CreateCount(k: nat)
    requires k < MaxDocuments
    ensures var m := CreateTimes(Fresh, k);
      && |m.documents| == k && m.counter == k
      && (k > 0 ==> m.current == k - 1)
      && Selected(m)
  {
    if k > 0 {
      CreateCount(k - 1);
      var before := CreateTimes(Fresh, k - 1);
      CounterStep(before.counter);
      CreatePreservesValid(before);
    }
  }

  /** The k-th document created in a fresh manager is "New Document k". */
  lemma {:induction false} CreateNumbering(k: nat)
    requires k < MaxDocuments
    ensures var m := CreateTimes(Fresh, k);
      |m.documents| == k && forall j :: 0 <= j < k ==> m.documents[j] == NewDocument(j + 1)
  {
    CreateCount(k);
    if k > 0 {
      CreateNumbering(k - 1);
      CreateCount(k - 1);
      var before := CreateTimes(Fresh, k - 1);
      var m := CreateNewDocument(before);
      assert m.documents[..k - 1] == before.documents;
      assert m.documents[k - 1] == NewDocument(k);
      forall j | 0 <= j < k - 1
        ensures m.documents[j] == NewDocument(j + 1)
      {
        assert m.documents[j] == before.documents[j];
      }
    }
  }

  /** New documents never share a name, as long as the counter does not wrap. */
  lemma CreatedNamesDistinct(k: nat, i: nat, j: nat)
    requires k < MaxDocuments && i < j < k
    ensures var m := CreateTimes(Fresh, k);
      |m.documents| == k && m.documents[i].name != m.documents[j].name
  {
    CreateNumbering(k);
    NatToStringInjective(i + 1, j + 1);
    assert NewDocumentName(i + 1)[13..] == NatToString(i + 1);
    assert NewDocumentName(j + 1)[13..] == NatToString(j + 1);
  }

  /** Two new documents, the first selected, closed with confirmation: the
      check leaves both, the commit leaves one, selected at 0. */
  lemma TwoDocumentScenario()
    ensures var m := SetCurrentDocumentIndex(CreateTimes(Fresh, 2), 0);
      var c := CloseDocumentWithCheck(m, 0);
      && m.documents[0].name == NewDocumentName(1)
      && m.documents[1].name == NewDocumentName(2)
      && c.outcome == NeedsConfirmation(0)
      && |c.manager.documents| == 2
      && |CloseDocument(c.manager).documents| == 1
      && CloseDocument(c.manager).current == 0
      && CloseDocument(c.manager).documents[0].name == NewDocumentName(2)
  {
    CreateNumbering(2);
    CreateCount(2);
  }

  // ---------------------------------------------------------------------
  // Save, then load

  /** A document saved to its path and loaded back from the text written
      comes back with its name, events, zoom and offset, its path, and
      marked saved. */
  lemma SaveThenLoad(m: Manager, v: Version, blank: TimelineState)
    requires Valid(m) && |m.documents| < MaxDocuments && 0 <= m.current
    requires !m.documents[m.current].saved && m.documents[m.current].path != ""
    requires Encodable(m.documents[m.current])
    ensures var s := SaveDocument(m, v, SaveIo(true, true));
      var w := s.written.value;
      var l := LoadDocument(s.manager, w.path, Contents(w.text), blank);
      var d := m.documents[m.current];
      && s.manager.documents[m.current].saved
      && l.error.None?
      && |l.manager.documents| == |m.documents| + 1
      && var e := l.manager.documents[|m.documents|];
      && e.name == d.name && e.events == d.events && e.path == d.path
      && e.state.zoom == d.state.zoom && e.state.offset == d.state.offset
      && e.saved
  {
    var d := m.documents[m.current];
    var text := SerializeDocument(d, v);
    var s := SaveDocument(m, v, SaveIo(true, true));
    assert s.written == Some(Written(d.path, text));
    SerializeRoundTrip(d, v, blank);
    var x := DeserializeDocument(text, blank).value;
    var l := LoadDocument(s.manager, d.path, Contents(text), blank);
    assert l.manager.documents == s.manager.documents + [x.(path := d.path)];
  }
}
