/**
 * The annotation session (app.py lines 95-101, 135-144, 362-416): the pair
 * list, the navigation position, and the submit handler that
 * validates an answer set, refuses a second record for the same document and
 * annotator, and otherwise appends one row to the results file.
 */
module Session {
  import opened Pairing
  import opened DocIds
  import opened Navigation
  import opened Validation
  import opened Progress

  /** What a press of "Submit Answers" leads to. */
  datatype Outcome = Rejected(errors: seq<ValidationError>) | Duplicate | Saved

  /**
   * The submit handler's decision on the records loaded at the start of the
   * run: validation first, then the duplicate guard.
   */
  function Decide(records: seq<Record>, docId: string, annotator: string, answers: Answers, feedback: string): Outcome
  {
    var errors := ValidationErrors(annotator, answers, feedback);
    if errors != [] then Rejected(errors)
    else if (docId, annotator) in ExistingPairs(records) then Duplicate
    else Saved
  }

  /** The records after the handler ran: one more, exactly when it saved. */
  function Committed(records: seq<Record>, docId: string, annotator: string, answers: Answers, feedback: string): seq<Record>
  {
    if Decide(records, docId, annotator, answers, feedback).Saved?
    then records + [Record(docId, annotator, answers, feedback)]
    else records
  }

  /** A submission is rejected exactly when validation reports errors, and then with those errors. */
  lemma RejectedIffInvalid(records: seq<Record>, docId: string, annotator: string, answers: Answers, feedback: string)
    ensures var o := Decide(records, docId, annotator, answers, feedback);
      && (o.Rejected? <==> ValidationErrors(annotator, answers, feedback) != [])
      && (o.Rejected? ==> o.errors == ValidationErrors(annotator, answers, feedback)
                          && Committed(records, docId, annotator, answers, feedback) == records)
  {
  }

  /** A valid submission is a duplicate exactly when the pair is already annotated; nothing is then stored. */
  lemma DuplicateIffAnnotated(records: seq<Record>, docId: string, annotator: string, answers: Answers, feedback: string)
    requires ValidationErrors(annotator, answers, feedback) == []
    ensures Decide(records, docId, annotator, answers, feedback).Duplicate? <==> Annotated(records, docId, annotator)
    ensures Decide(records, docId, annotator, answers, feedback).Duplicate? ==>
      Committed(records, docId, annotator, answers, feedback) == records
  {
    ExistingPairsAreAnnotated(records, docId, annotator);
  }

  /** Only a saved submission changes a count, and then only the submitter's, by one. */
  lemma CommittedCount(records: seq<Record>, docId: string, annotator: string, answers: Answers, feedback: string, a: string)
    ensures Count(Committed(records, docId, annotator, answers, feedback), a)
         == Count(records, a)
          + (if Decide(records, docId, annotator, answers, feedback).Saved? && a == annotator then 1 else 0)
  {
    CountAppend(records, Record(docId, annotator, answers, feedback), a);
  }

  /** After a save, the submitted pair is annotated; no other pair ever changes status. */
  lemma CommittedStatus(records: seq<Record>, docId: string, annotator: string, answers: Answers, feedback: string, d: string, a: string)
    ensures Annotated(Committed(records, docId, annotator, answers, feedback), d, a)
        <==> (Annotated(records, d, a)
              || (Decide(records, docId, annotator, answers, feedback).Saved? && d == docId && a == annotator))
  {
    AnnotatedAppend(records, Record(docId, annotator, answers, feedback), d, a);
  }

  /** The handler keeps at most one record per (doc_id, annotator) pair. */
  lemma CommittedKeepsPairsUnique(records: seq<Record>, docId: string, annotator: string, answers: Answers, feedback: string)
    requires UniquePairs(records)
    ensures UniquePairs(Committed(records, docId, annotator, answers, feedback))
  {
    ExistingPairsAreAnnotated(records, docId, annotator);
    UniqueAppend(records, Record(docId, annotator, answers, feedback));
  }

  /**
   * A first submission on a fresh store: pair 0 becomes annotated for the
   * submitter, whose count is 1; the other documents stay pending.
   */
  lemma FirstSubmission(docIds: seq<string>, annotator: string, answers: Answers, feedback: string)
    requires |docIds| == 3 && docIds[0] != docIds[1] && docIds[0] != docIds[2]
    requires ValidationErrors(annotator, answers, feedback) == []
    ensures var after := Committed([], docIds[0], annotator, answers, feedback);
      && Count(after, annotator) == 1
      && Annotated(after, docIds[0], annotator)
      && !Annotated(after, docIds[1], annotator)
      && !Annotated(after, docIds[2], annotator)
  {
    DuplicateIffAnnotated([], docIds[0], annotator, answers, feedback);
    CommittedCount([], docIds[0], annotator, answers, feedback, annotator);
    CommittedStatus([], docIds[0], annotator, answers, feedback, docIds[0], annotator);
    CommittedStatus([], docIds[0], annotator, answers, feedback, docIds[1], annotator);
    CommittedStatus([], docIds[0], annotator, answers, feedback, docIds[2], annotator);
  }

  /** The three ways the handler ends, and the records each one leaves. */
  lemma HandlerCases(records: seq<Record>, docId: string, annotator: string, answers: Answers, feedback: string)
    ensures var errors := ValidationErrors(annotator, answers, feedback);
      var d := Decide(records, docId, annotator, answers, feedback);
      var c := Committed(records, docId, annotator, answers, feedback);
      && (errors != [] ==> d == Rejected(errors) && c == records)
      && (errors == [] && (docId, annotator) in ExistingPairs(records) ==> d == Duplicate && c == records)
      && (errors == [] && (docId, annotator) !in ExistingPairs(records) ==>
            d == Saved && c == records + [Record(docId, annotator, answers, feedback)])
  {
  }

  /**
   * The handler's decision as app.py lines 85 and 384-386 compute it: the
   * duplicate guard looks at the loaded frame, where a doc id in the pandas
   * NA set has become a missing value.
   */
  function DecideAsLoaded(records: seq<Record>, docId: string, annotator: string, answers: Answers, feedback: string): (o: Outcome)
    ensures docId !in PANDAS_NA ==> o == Decide(records, docId, annotator, answers, feedback)
    ensures docId in PANDAS_NA && ValidationErrors(annotator, answers, feedback) == [] ==> o == Saved
  {
    AnnotatedAsLoadedIff(records, docId, annotator);
    ExistingPairsAreAnnotated(records, docId, annotator);
    var errors := ValidationErrors(annotator, answers, feedback);
    if errors != [] then Rejected(errors)
    else if AnnotatedAsLoaded(records, docId, annotator) then Duplicate
    else Saved
  }

  /**
   * The case file `pairs/original/NA.txt` submitted validly by Leti on two
   * runs: the loaded frame lets the second submission through, so Leti holds
   * two records for one document, where the stored records call it a duplicate.
   */
  lemma NaDocIdSavedTwice(answers: Answers, feedback: string)
    requires ValidationErrors("Leti", answers, feedback) == []
    ensures DocId("pairs/original/NA.txt") == "NA"
    ensures var first := Committed([], "NA", "Leti", answers, feedback);
      && first == [Record("NA", "Leti", answers, feedback)]
      && DecideAsLoaded(first, "NA", "Leti", answers, feedback) == Saved
      && Decide(first, "NA", "Leti", answers, feedback) == Duplicate
      && var second := first + [Record("NA", "Leti", answers, feedback)];
         Count(second, "Leti") == 2 && !UniquePairs(second)
  {
    NaCaseFileId();
    var r := Record("NA", "Leti", answers, feedback);
    DuplicateIffAnnotated([], "NA", "Leti", answers, feedback);
    var first := Committed([], "NA", "Leti", answers, feedback);
    assert first == [r];
    AnnotatedAsLoadedIff(first, "NA", "Leti");
    DuplicateIffAnnotated(first, "NA", "Leti", answers, feedback);
    assert first[0] == r;
    var second := first + [r];
    assert second[0] == r && second[1] == r;
  }

  /**
   * The script's state across reruns: the pair list, discovered again on
   * every rerun (app.py line 96), and the index kept in `st.session_state`.
   */
  class AnnotationSession {
    var pairs: seq<Pair>
    var index: int

    /** The index never drops below 0. */
    predicate Valid()
      reads this
    {
      0 <= index
    }

    /** The index names a pair, so app.py line 143 finds the document to show. */
    predicate OnPair()
      reads this
    {
      0 <= index < |pairs|
    }

    /**
     * The first run: the pairs from the two discovered file lists, at the
     * first one. An empty corpus leaves no pair to show, where the script
     * fails with an IndexError.
     */
    constructor(caseFiles: seq<string>, summaryFiles: seq<string>)
      ensures pairs == FilePairs(caseFiles, summaryFiles)
      ensures index == START && Valid()
      ensures OnPair() <==> caseFiles != [] && summaryFiles != []
    {
      pairs := FilePairs(caseFiles, summaryFiles);
      index := START;
    }

    /**
     * A later rerun: the pairs are discovered again, the index is kept. When
     * files went away the index may no longer name a pair.
     */
    method Rediscover(caseFiles: seq<string>, summaryFiles: seq<string>)
      requires Valid()
      modifies this
      ensures Valid() && index == old(index)
      ensures pairs == FilePairs(caseFiles, summaryFiles)
      ensures OnPair() <==> index < |caseFiles| && index < |summaryFiles|
    {
      pairs := FilePairs(caseFiles, summaryFiles);
    }

    /** The "Previous" button. */
    method Previous()
      requires Valid()
      modifies this
      ensures Valid() && pairs == old(pairs) && index == Retreat(old(index))
      ensures old(OnPair()) ==> OnPair()
    {
      if index > 0 {
        index := index - 1;
      }
    }

    /** The "Next" button, against the pairs of this rerun. */
    method Next()
      requires Valid()
      modifies this
      ensures Valid() && pairs == old(pairs) && index == Advance(old(index), |pairs|)
      ensures old(OnPair()) ==> OnPair()
    {
      if index < |pairs| - 1 {
        index := index + 1;
      }
    }

    /** The identifier of the document on screen, from its case path alone. */
    function CurrentDocId(): string
      reads this
      requires OnPair()
    {
      DocId(pairs[index].casePath)
    }

    /**
     * The submit handler. The records are those loaded at the start of the
     * run; the header decision is taken on whether the file exists.
     */
    method Submit(store: ResultsFile, annotator: string, answers: Answers, feedback: string)
      returns (outcome: Outcome)
      requires OnPair() && store.Valid()
      modifies store
      ensures store.Valid()
      ensures outcome == Decide(old(store.Records()), CurrentDocId(), annotator, answers, feedback)
      ensures store.Records() == Committed(old(store.Records()), CurrentDocId(), annotator, answers, feedback)
      ensures !outcome.Saved? ==> store.present == old(store.present) && store.lines == old(store.lines)
      ensures outcome.Saved? ==>
        && store.present
        && store.lines == old(store.lines)
             + (if old(store.present) then [] else [HEADER])
             + [DataLine(Row(Record(CurrentDocId(), annotator, answers, feedback)))]
    {
      var records := store.Records();
      var docId := CurrentDocId();
      HandlerCases(records, docId, annotator, answers, feedback);
      var errors := Validate(annotator, answers, feedback);
      if errors != [] {
        outcome := Rejected(errors);
        return;
      }
      if (docId, annotator) in ExistingPairs(records) {
        outcome := Duplicate;
        return;
      }
      var record := Record(docId, annotator, answers, feedback);
      RowRoundTrip(record);
      var writeHeader := !store.present;
      store.Append(Row(record), writeHeader);
      assert store.Records() == records + [record];
      assert CurrentDocId() == docId;
      outcome := Saved;
    }
  }
}
