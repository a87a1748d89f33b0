/**
 * The page's state and the handlers that change it: the transcript list,
 * the active id, the instruction and address fields and the chosen mode,
 * with every handler as a method on that state.
 */
module Store {
  import opened Wrappers
  import opened Text
  import opened Documents
  import opened Client

  /**
   * A file handed to the upload handler, with the id the generator gives
   * its document and the text its read produces.
   */
  datatype Upload = Upload(name: string, mimeType: string, id: string, text: string)

  predicate IsPlainText(u: Upload) {
    u.mimeType == "text/plain"
  }

  /** The documents a batch of reads appends, in the order the reads finish; files of other types add nothing. */
  function Uploaded(us: seq<Upload>): seq<Transcript> {
    if us == [] then []
    else
      var last := us[|us| - 1];
      Uploaded(us[..|us| - 1]) + (if IsPlainText(last) then [FromFile(last.id, last.name, last.text)] else [])
  }

  /** Every added document is the document of a plain-text file of the batch, and there are no more of them than files. */
  lemma {:induction false} UploadedFromFiles(us: seq<Upload>)
    ensures |Uploaded(us)| <= |us|
    ensures forall t :: t in Uploaded(us) ==> exists u :: u in us && IsPlainText(u) && t == FromFile(u.id, u.name, u.text)
  {
    if us != [] {
      var init := us[..|us| - 1];
      UploadedFromFiles(init);
      assert forall u :: u in init ==> u in us;
    }
  }

  /** Reading one more file appends its document, if it is plain text, after the others. */
  lemma UploadedStep(us: seq<Upload>, i: nat)
    requires i < |us|
    ensures Uploaded(us[..i + 1]) == Uploaded(us[..i]) + (if IsPlainText(us[i]) then [FromFile(us[i].id, us[i].name, us[i].text)] else [])
  {
    assert us[..i + 1][..i] == us[..i];
  }

  /**
   * The active id after the reads that added `docs`, when `before` was the
   * active id at the upload: kept when it was set, otherwise the last added
   * document's id.
   */
  function SelectedAfterUpload(before: Option<string>, docs: seq<Transcript>): Option<string> {
    if TruthyText(before) || docs == [] then before else Some(docs[|docs| - 1].id)
  }

  /** One more read, as the state of the page sees it: the list and the active id it leaves. */
  lemma UploadStepState(ts: seq<Transcript>, us: seq<Upload>, i: nat, before: Option<string>)
    requires i < |us|
    ensures var u, docs := us[i], Uploaded(us[..i]);
      && ts + Uploaded(us[..i + 1]) == (if IsPlainText(u) then (ts + docs) + [FromFile(u.id, u.name, u.text)] else ts + docs)
      && SelectedAfterUpload(before, Uploaded(us[..i + 1])) ==
         (if IsPlainText(u) && !TruthyText(before) then Some(u.id) else SelectedAfterUpload(before, docs))
  {
    UploadedStep(us, i);
    var u, docs := us[i], Uploaded(us[..i]);
    if IsPlainText(u) {
      var doc := FromFile(u.id, u.name, u.text);
      assert ts + (docs + [doc]) == (ts + docs) + [doc];
    } else {
      assert docs + [] == docs;
    }
  }

  /** Ids the generator hands out for a batch: non-empty, pairwise distinct and new to the list. */
  predicate FreshIds(ts: seq<Transcript>, us: seq<Upload>) {
    && (forall i :: 0 <= i < |us| ==> us[i].id != "" && !HasId(ts, us[i].id))
    && (forall i, j :: 0 <= i < j < |us| ==> us[i].id != us[j].id)
  }

  /** Every document the first n reads add carries the id of one of the first n files. */
  lemma {:induction false} UploadedIds(us: seq<Upload>, n: nat)
    requires n <= |us|
    ensures forall t :: t in Uploaded(us[..n]) ==> exists j :: 0 <= j < n && t.id == us[j].id
  {
    if n > 0 {
      UploadedIds(us, n - 1);
      UploadedStep(us, n - 1);
    }
  }

  /** The id of the file the (n+1)-th read belongs to is new to the list the first n reads left. */
  lemma FreshAfterReads(ts: seq<Transcript>, us: seq<Upload>, n: nat)
    requires FreshIds(ts, us) && n < |us|
    ensures us[n].id != "" && !HasId(ts + Uploaded(us[..n]), us[n].id)
  {
    var before := ts + Uploaded(us[..n]);
    UploadedIds(us, n);
    forall i | 0 <= i < |before| ensures before[i].id != us[n].id {
      if i < |ts| {
        assert before[i] == ts[i];
      } else {
        assert before[i] in Uploaded(us[..n]);
        var j :| 0 <= j < n && before[i].id == us[j].id;
      }
    }
  }

  /**
   * After an upload the active id is the old one, which still names a
   * document, or the id of the last document added.
   */
  lemma SelectionSurvivesUpload(ts: seq<Transcript>, added: seq<Transcript>, before: Option<string>, after: Option<string>)
    requires Selects(ts, before)
    requires after == before || (added != [] && after == Some(added[|added| - 1].id))
    ensures Selects(ts + added, after)
  {
    var all := ts + added;
    if after == before && before.Some? {
      var i :| 0 <= i < |ts| && ts[i].id == before.value;
      assert all[i] == ts[i];
    } else if after.Some? {
      assert all[|all| - 1] == added[|added| - 1];
    }
  }

  class TranscriptStore {
    var transcripts: seq<Transcript>
    var activeId: Option<string>
    var instruction: string
    var emails: string
    var selectedMode: Option<ModeKey>

    /** Ids are valid and the active id, when there is one, names a document in the list. */
    ghost predicate Valid()
      reads this
    {
      ValidIds(transcripts) && Selects(transcripts, activeId)
    }

    /** The page's initial state: no documents, no selection, the default instruction, no addresses. */
    constructor()
      ensures Valid()
      ensures transcripts == [] && activeId == None
      ensures instruction == DefaultInstruction && emails == "" && selectedMode == None
    {
      transcripts := [];
      activeId := None;
      instruction := DefaultInstruction;
      emails := "";
      selectedMode := None;
    }

    /** The active document: present exactly when there is an active id, and then the document with that id. */
    function Active(): (r: Option<Transcript>)
      reads this
      ensures Valid() ==> (r.Some? <==> activeId.Some?)
      ensures r.Some? ==> r.value in transcripts && activeId == Some(r.value.id)
    {
      Find(transcripts, activeId)
    }

    /** "New": appends "Meeting n+1" with empty content and selects it. */
    method AddNew(id: string)
      requires Valid() && id != "" && !HasId(transcripts, id)
      modifies this
      ensures Valid()
      ensures transcripts == old(transcripts) + [NewMeeting(id, |old(transcripts)|)]
      ensures activeId == Some(id)
      ensures instruction == old(instruction) && emails == old(emails) && selectedMode == old(selectedMode)
      ensures Active() == Some(NewMeeting(id, |old(transcripts)|))
    {
      var doc := NewMeeting(id, |transcripts|);
      AppendKeepsValidIds(transcripts, doc);
      transcripts := transcripts + [doc];
      activeId := Some(id);
      assert transcripts[|transcripts| - 1] == doc;
      FindUnique(transcripts, |transcripts| - 1);
    }

    /**
     * The `onload` callback of the read of a plain-text file: appends the
     * file's document, and selects it when `wasActive`, the active id the
     * callback captured at the upload, is unset.
     */
    method OnLoad(u: Upload, wasActive: Option<string>)
      requires ValidIds(transcripts) && u.id != "" && !HasId(transcripts, u.id)
      modifies this
      ensures ValidIds(transcripts)
      ensures transcripts == old(transcripts) + [FromFile(u.id, u.name, u.text)]
      ensures activeId == if TruthyText(wasActive) then old(activeId) else Some(u.id)
      ensures instruction == old(instruction) && emails == old(emails) && selectedMode == old(selectedMode)
    {
      AppendKeepsValidIds(transcripts, FromFile(u.id, u.name, u.text));
      transcripts := transcripts + [FromFile(u.id, u.name, u.text)];
      if !TruthyText(wasActive) {
        activeId := Some(u.id);
      }
    }

    /** The `i`-th read of a batch: a plain-text file's callback runs, any other file is skipped. */
    method ReadOne(ghost start: seq<Transcript>, us: seq<Upload>, i: nat, wasActive: Option<string>)
      requires i < |us| && FreshIds(start, us) && ValidIds(transcripts)
      requires transcripts == start + Uploaded(us[..i])
      requires activeId == SelectedAfterUpload(wasActive, Uploaded(us[..i]))
      modifies this
      ensures ValidIds(transcripts)
      ensures transcripts == start + Uploaded(us[..i + 1])
      ensures activeId == SelectedAfterUpload(wasActive, Uploaded(us[..i + 1]))
      ensures instruction == old(instruction) && emails == old(emails) && selectedMode == old(selectedMode)
    {
      UploadStepState(start, us, i, wasActive);
      if IsPlainText(us[i]) {
        FreshAfterReads(start, us, i);
        OnLoad(us[i], wasActive);
      }
    }

    /**
     * The upload handler and the reads it starts, with the reads finishing
     * in the order of `us`. Every read's callback sees the active id of the
     * moment of the upload, so when there was none each plain-text document
     * takes the selection in turn and the last one keeps it.
     */
    method UploadFiles(us: seq<Upload>)
      requires Valid() && FreshIds(transcripts, us)
      modifies this
      ensures Valid()
      ensures transcripts == old(transcripts) + Uploaded(us)
      ensures activeId == SelectedAfterUpload(old(activeId), Uploaded(us))
      ensures instruction == old(instruction) && emails == old(emails) && selectedMode == old(selectedMode)
    {
      var wasActive := activeId;
      ghost var start := transcripts;
      var i := 0;
      while i < |us|
        invariant 0 <= i <= |us|
        invariant transcripts == start + Uploaded(us[..i])
        invariant activeId == SelectedAfterUpload(wasActive, Uploaded(us[..i]))
        invariant instruction == old(instruction) && emails == old(emails) && selectedMode == old(selectedMode)
        invariant ValidIds(transcripts)
      {
        ReadOne(start, us, i, wasActive);
        i := i + 1;
      }
      assert us[..|us|] == us;
      SelectionSurvivesUpload(start, Uploaded(us), wasActive, activeId);
    }

    /** An edit of one document: the patch is merged into every document with the id, the rest stay as they are. */
    method Update(id: string, patch: Patch)
      requires Valid()
      modifies this
      ensures Valid()
      ensures transcripts == UpdateAll(old(transcripts), id, patch)
      ensures activeId == old(activeId) && instruction == old(instruction)
      ensures emails == old(emails) && selectedMode == old(selectedMode)
    {
      UpdateKeepsIds(transcripts, id, patch, activeId);
      transcripts := UpdateAll(transcripts, id, patch);
    }

    /** Deletion: removes the documents with the id and, when the active one went, selects the first remaining one or none. */
    method Delete(id: string)
      requires Valid()
      modifies this
      ensures Valid()
      ensures transcripts == RemoveId(old(transcripts), id)
      ensures activeId == NextActive(transcripts, old(activeId), id)
      ensures instruction == old(instruction) && emails == old(emails) && selectedMode == old(selectedMode)
    {
      var remaining := RemoveId(transcripts, id);
      var next := activeId;
      if activeId == Some(id) {
        next := if |remaining| > 0 then Some(remaining[0].id) else None;
      }
      assert next == NextActive(remaining, activeId, id);
      DeleteKeepsValid(transcripts, activeId, id);
      transcripts, activeId := remaining, next;
    }

    /** A click on the k-th document of the list makes it the active one. */
    method SelectAt(k: nat)
      requires Valid() && k < |transcripts|
      modifies this
      ensures Valid()
      ensures transcripts == old(transcripts) && activeId == Some(transcripts[k].id)
      ensures instruction == old(instruction) && emails == old(emails) && selectedMode == old(selectedMode)
      ensures Active() == Some(transcripts[k])
    {
      activeId := Some(transcripts[k].id);
      FindUnique(transcripts, k);
    }

    /** A mode button replaces the instruction by the mode's text and marks the mode. */
    method ApplySummaryMode(k: ModeKey)
      requires Valid()
      modifies this
      ensures Valid()
      ensures instruction == ModeInstruction(k) && selectedMode == Some(k)
      ensures transcripts == old(transcripts) && activeId == old(activeId) && emails == old(emails)
    {
      instruction := ModeInstruction(k);
      selectedMode := Some(k);
    }

    /** Typing in the instruction box; the marked mode stays marked. */
    method SetInstruction(text: string)
      requires Valid()
      modifies this
      ensures Valid()
      ensures instruction == text
      ensures transcripts == old(transcripts) && activeId == old(activeId)
      ensures emails == old(emails) && selectedMode == old(selectedMode)
    {
      instruction := text;
    }

    /** Typing in the address field. */
    method SetEmails(text: string)
      requires Valid()
      modifies this
      ensures Valid()
      ensures emails == text
      ensures transcripts == old(transcripts) && activeId == old(activeId)
      ensures instruction == old(instruction) && selectedMode == old(selectedMode)
    {
      emails := text;
    }

    /**
     * "Generate summary" with `reply` as the route's answer: the request it
     * sends, if any, and, on a successful reply, the summary stored on the
     * active document and nowhere else.
     */
    method GenerateSummary(reply: SummaryReply) returns (call: Option<SummaryCall>)
      requires Valid()
      modifies this
      ensures Valid()
      ensures call == SummaryRequest(old(Active()), old(instruction))
      ensures transcripts == if call.Some? && reply.Summarized? then UpdateAll(old(transcripts), old(activeId).value, SummaryPatch(reply.summary))
                             else old(transcripts)
      ensures call.Some? && reply.Summarized? ==> Active().Some? && Active().value.summary == Some(reply.summary)
      ensures activeId == old(activeId) && instruction == old(instruction)
      ensures emails == old(emails) && selectedMode == old(selectedMode)
    {
      var active := Active();
      call := SummaryRequest(active, instruction);
      if call.Some? && reply.Summarized? {
        var k :| 0 <= k < |transcripts| && transcripts[k] == active.value && forall j :: 0 <= j < k ==> transcripts[j].id != activeId.value;
        SummaryChangesOnlyItsDocument(transcripts, k, reply.summary);
        Update(activeId.value, SummaryPatch(reply.summary));
        FindUnique(transcripts, k);
      }
    }

    /** "Send": the request it sends, if any; the page's state does not change. */
    method SendEmail() returns (call: Option<EmailCall>)
      ensures call == EmailRequest(Active(), emails)
      ensures call.Some? ==> Active().Some? && Active().value.summary.Some?
      ensures call.Some? ==> forall k :: 0 <= k < |call.value.emails| ==> call.value.emails[k] != [] && ',' !in call.value.emails[k]
    {
      RecipientsWellFormed(Trim(emails));
      call := EmailRequest(Active(), emails);
    }
  }
}
