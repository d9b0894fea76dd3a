/**
  The older `App` window class keeps its own vector of documents with the
  same create and close logic as `DocumentManager`, but closes at once,
  with no confirmation step. The App reads nothing of a document but its
  name, so a document is modelled here by its name.
 */
module GuiApp {
  import opened Timeline
  import opened Decimal
  import DocumentManager

  datatype App = App(documents: seq<string>, current: int32, counter: int32)

  /** The member initialisers: no documents, no selection, numbering from 1. */
  const FreshApp: App := App([], -1, 1)

  /** `App::CreateNewDocument`: name the document with the counter, then
      increment it (a post-increment, so numbering starts at 1), append,
      select the new last index. Incrementing INT_MAX would be signed
      overflow, which the source does not define. */
  function Create(a: App): (r: App)
    requires a.counter < Int32Max
    ensures |r.documents| == |a.documents| + 1
    ensures r.documents[..|a.documents|] == a.documents
    ensures r.documents[|a.documents|] == "New Document " + IntToString(a.counter)
    ensures r.counter == a.counter + 1
    ensures |a.documents| <= Int32Max ==> r.current == |a.documents|
  {
    var documents := a.documents + ["New Document " + IntToString(a.counter)];
    App(documents, ToInt32(|documents| - 1), a.counter + 1)
  }

  /** `App::CloseDocument(index)`: an index outside the vector is ignored;
      otherwise that document goes and the current index is pulled back to
      the last position when it is past the end, -1 counting as past the
      end through the comparison with `size_t`. */
  function Close(a: App, index: int): (r: App)
    ensures !(0 <= index < |a.documents|) ==> r == a
    ensures 0 <= index < |a.documents| ==>
      && |r.documents| == |a.documents| - 1
      && r.documents == DocumentManager.RemoveAt(a.documents, index)
    ensures 0 <= index < |a.documents| <= Int32Max + 1 ==>
      if a.current < 0 || a.current >= |r.documents| then r.current == |r.documents| - 1
      else r.current == a.current
    ensures r.counter == a.counter
  {
    if index >= 0 && index < |a.documents| then
      var documents := DocumentManager.RemoveAt(a.documents, index);
      var current :=
        if AsSizeT(a.current) >= |documents| then
          ToInt32(if |documents| == 0 then TwoTo64 - 1 else |documents| - 1)
        else a.current;
      App(documents, current, a.counter)
    else a
  }

  /** The "Close file" menu item and Ctrl+W: close the current document
      when the current index is in range. */
  function CloseCurrent(a: App): App {
    if a.current >= 0 && AsSizeT(a.current) < |a.documents| then Close(a, a.current) else a
  }

  /** The guard at the call sites only repeats the range check `Close`
      makes itself. */
  lemma CloseCurrentGuardIsRedundant(a: App)
    ensures CloseCurrent(a) == Close(a, a.current)
  {
  }

  predicate Valid(a: App) {
    |a.documents| <= Int32Max && -1 <= a.current < |a.documents|
  }

  lemma CreatePreservesValid(a: App)
    requires Valid(a) && |a.documents| < Int32Max && a.counter < Int32Max
    ensures Valid(Create(a)) && Create(a).current == |a.documents|
  {
  }

  lemma {:induction false} ClosePreservesValid(a: App, index: int)
    requires Valid(a)
    ensures Valid(Close(a, index))
    ensures (a.current == -1 <==> |a.documents| == 0) ==>
      (Close(a, index).current == -1 <==> |Close(a, index).documents| == 0)
  {
    if 0 <= index < |a.documents| {
      var r := Close(a, index);
      if a.current < 0 || a.current >= |r.documents| {
        assert r.current == |r.documents| - 1;
      } else {
        assert r.current == a.current;
      }
    }
  }

  /** Successive creations get consecutive numbers, each name distinct from
      the one before. */
  lemma ConsecutiveNames(a: App)
    requires a.counter < Int32Max - 1 && 0 <= a.counter
    ensures var b := Create(Create(a));
      && b.documents[|a.documents|] == "New Document " + NatToString(a.counter)
      && b.documents[|a.documents| + 1] == "New Document " + NatToString(a.counter + 1)
      && b.documents[|a.documents|] != b.documents[|a.documents| + 1]
  {
    var b := Create(Create(a));
    NatToStringInjective(a.counter, a.counter + 1);
    assert b.documents[|a.documents|][13..] == NatToString(a.counter);
    assert b.documents[|a.documents| + 1][13..] == NatToString(a.counter + 1);
  }

  // ---------------------------------------------------------------------
  // Agreement with the document manager

  function Names(documents: seq<Document>): (r: seq<string>)
    ensures |r| == |documents|
    ensures forall i :: 0 <= i < |documents| ==> r[i] == documents[i].name
  {
    seq(|documents|, i requires 0 <= i < |documents| => documents[i].name)
  }

  /** The App state a manager state corresponds to: the same names in the
      same order, the same current index, and the App's counter one ahead,
      since the App post-increments from 1 where the manager
      pre-increments from 0. */
  predicate Corresponds(m: DocumentManager.Manager, a: App) {
    && a.documents == Names(m.documents)
    && a.current == m.current
    && a.counter == m.counter + 1
  }

  lemma FreshCorresponds()
    ensures Corresponds(DocumentManager.Fresh, FreshApp)
  {
  }

  lemma RemoveAtNames(documents: seq<Document>, i: nat)
    requires i < |documents|
    ensures Names(DocumentManager.RemoveAt(documents, i)) == DocumentManager.RemoveAt(Names(documents), i)
  {
  }

  /** Creating a document does the same in both. */
  lemma CreateAgrees(m: DocumentManager.Manager, a: App)
    requires Corresponds(m, a) && a.counter < Int32Max && |m.documents| < Int32Max
    ensures Corresponds(DocumentManager.CreateNewDocument(m), Create(a))
  {
    var m' := DocumentManager.CreateNewDocument(m);
    var a' := Create(a);
    assert m'.counter == m.counter + 1;
    assert Names(m'.documents) == a'.documents by {
      forall i | 0 <= i < |m'.documents|
        ensures Names(m'.documents)[i] == a'.documents[i]
      {
        if i < |m.documents| {
          assert m'.documents[i] == m'.documents[..|m.documents|][i];
          assert a'.documents[i] == a'.documents[..|a.documents|][i];
        }
      }
    }
  }

  /** The manager's close (checked, then committed when confirmation was
      asked for) does what the App's immediate close does, for every index. */
  lemma CloseAgrees(m: DocumentManager.Manager, a: App, index: int32)
    requires Corresponds(m, a) && |m.documents| <= Int32Max
    ensures var c := DocumentManager.CloseDocumentWithCheck(m, index);
      var done := if c.outcome.NeedsConfirmation? then DocumentManager.CloseDocument(c.manager) else c.manager;
      Corresponds(done, Close(a, index))
  {
    if 0 <= index < |m.documents| {
      RemoveAtNames(m.documents, index);
    }
  }
}
