/**
 * The computations inside the page's two submit actions: the fixed
 * instruction modes, the guard and the request of "generate summary", and
 * the guard, the recipient parsing and the e-mail body of "send".
 */
module Client {
  import opened Wrappers
  import opened Text
  import opened Documents

  /** The keys of the instruction-mode table. */
  datatype ModeKey = Executive | ActionItems | Sentiment | Timeline

  /** The instruction-mode table. */
  function ModeInstruction(k: ModeKey): string {
    match k
    case Executive => "Create an executive " + "summary with key decisions, " + "outcomes, and strategic implications."
    case ActionItems => "Extract all action items, " + "deadlines, and assigned responsibilities " + "in a clear list format."
    case Sentiment => "Analyze the sentiment " + "and tone of the meeting, including " + "participant engagement and concerns."
    case Timeline => "Create a chronological " + "timeline of events, decisions, and " + "discussion points from the meeting."
  }

  /** The initial instruction, also sent in place of a blank one. */
  const DefaultInstruction := "Summarize the key " + "points and action items " + "from this meeting."

  /** A text whose outer characters are not white space is left alone by trimming. */
  lemma TrimmedPieces(a: string, mid: string, b: string)
    requires a != [] && b != [] && !IsSpace(a[0]) && !IsSpace(b[|b| - 1])
    ensures a + mid + b != [] && Trim(a + mid + b) == a + mid + b
  {
    var m := a + mid + b;
    assert m[0] == a[0] && m[|m| - 1] == b[|b| - 1];
    TrimUnpadded(m);
  }

  /** Each mode's instruction is sent as it stands: trimming leaves it alone. */
  lemma ExecutiveTrimmed()
    ensures ModeInstruction(Executive) != [] && Trim(ModeInstruction(Executive)) == ModeInstruction(Executive)
  {
    TrimmedPieces("Create an executive ", "summary with key decisions, ", "outcomes, and strategic implications.");
  }

  lemma ActionItemsTrimmed()
    ensures ModeInstruction(ActionItems) != [] && Trim(ModeInstruction(ActionItems)) == ModeInstruction(ActionItems)
  {
    TrimmedPieces("Extract all action items, ", "deadlines, and assigned responsibilities ", "in a clear list format.");
  }

  lemma SentimentTrimmed()
    ensures ModeInstruction(Sentiment) != [] && Trim(ModeInstruction(Sentiment)) == ModeInstruction(Sentiment)
  {
    TrimmedPieces("Analyze the sentiment ", "and tone of the meeting, including ", "participant engagement and concerns.");
  }

  lemma TimelineTrimmed()
    ensures ModeInstruction(Timeline) != [] && Trim(ModeInstruction(Timeline)) == ModeInstruction(Timeline)
  {
    TrimmedPieces("Create a chronological ", "timeline of events, decisions, and ", "discussion points from the meeting.");
  }

  lemma ModeInstructionTrimmed(k: ModeKey)
    ensures ModeInstruction(k) != [] && Trim(ModeInstruction(k)) == ModeInstruction(k)
  {
    match k
    case Executive => ExecutiveTrimmed();
    case ActionItems => ActionItemsTrimmed();
    case Sentiment => SentimentTrimmed();
    case Timeline => TimelineTrimmed();
  }

  /** So is the default instruction. */
  lemma DefaultInstructionTrimmed()
    ensures DefaultInstruction != [] && Trim(DefaultInstruction) == DefaultInstruction
  {
    TrimmedPieces("Summarize the key ", "points and action items ", "from this meeting.");
  }

  /** The body of a request to the summarize route. */
  datatype SummaryCall = SummaryCall(transcript: string, instruction: string)

  /** How that request ends for the page: a 2xx with the summary, or anything else. */
  datatype SummaryReply = Summarized(summary: string) | Failed

  /** `instruction.trim() || DefaultInstruction`: never blank, never padded, the user's own text when there is some. */
  function InstructionToSend(instruction: string): (r: string)
    ensures r != [] && Trim(r) == r
    ensures !AllSpace(instruction) ==> r == Trim(instruction)
    ensures AllSpace(instruction) ==> r == DefaultInstruction
  {
    TrimEmptyIff(instruction);
    TrimIdempotent(instruction);
    DefaultInstructionTrimmed();
    if Trim(instruction) != [] then Trim(instruction) else DefaultInstruction
  }

  /**
   * The guard and request of "generate summary": no request without an
   * active document whose content has a non-space character; otherwise its
   * trimmed content with the instruction to send.
   */
  function SummaryRequest(active: Option<Transcript>, instruction: string): (r: Option<SummaryCall>)
    ensures r.Some? <==> active.Some? && !AllSpace(active.value.content)
    ensures r.Some? ==> r.value.transcript == Trim(active.value.content) && r.value.transcript != []
    ensures r.Some? ==> r.value.instruction == InstructionToSend(instruction)
  {
    if active.None? then None
    else
      TrimEmptyIff(active.value.content);
      if Trim(active.value.content) == [] then None
      else Some(SummaryCall(Trim(active.value.content), InstructionToSend(instruction)))
  }

  /** The update a successful summary applies to the active document. */
  function SummaryPatch(summary: string): Patch {
    Patch(None, None, None, Some(summary))
  }

  /** A new summary changes the `summary` of the document it is for and nothing else in the list. */
  lemma SummaryChangesOnlyItsDocument(ts: seq<Transcript>, k: nat, summary: string)
    requires ValidIds(ts) && k < |ts|
    ensures UpdateAll(ts, ts[k].id, SummaryPatch(summary)) == ts[k := ts[k].(summary := Some(summary))]
  {
    UpdateOne(ts, k, SummaryPatch(summary));
  }

  /** The body of a request to the e-mail route. */
  datatype EmailCall = EmailCall(summary: string, emails: seq<string>)

  function TrimEach(parts: seq<string>): seq<string> {
    seq(|parts|, k requires 0 <= k < |parts| => Trim(parts[k]))
  }

  /** `parts.filter(p => p.length > 0)`. */
  function NonEmpty(parts: seq<string>): seq<string> {
    if parts == [] then []
    else (if parts[0] == [] then [] else [parts[0]]) + NonEmpty(parts[1..])
  }

  /** The filter keeps exactly the non-empty parts. */
  lemma {:induction false} NonEmptyMembers(parts: seq<string>)
    ensures forall x :: x in NonEmpty(parts) <==> x in parts && x != []
  {
    if parts != [] {
      NonEmptyMembers(parts[1..]);
      assert forall x :: x in parts <==> x == parts[0] || x in parts[1..];
    }
  }

  lemma {:induction false} NonEmptyOfBlanks(parts: seq<string>)
    requires forall k :: 0 <= k < |parts| ==> parts[k] == []
    ensures NonEmpty(parts) == []
  {
    if parts != [] {
      NonEmptyOfBlanks(parts[1..]);
    }
  }

  lemma {:induction false} NonEmptyKeepsAll(parts: seq<string>)
    requires forall k :: 0 <= k < |parts| ==> parts[k] != []
    ensures NonEmpty(parts) == parts
  {
    if parts != [] {
      NonEmptyKeepsAll(parts[1..]);
      assert parts == [parts[0]] + parts[1..];
    }
  }

  /** Filtering a concatenation filters each part, keeping their order. */
  lemma {:induction false} NonEmptyAppend(a: seq<string>, b: seq<string>)
    ensures NonEmpty(a + b) == NonEmpty(a) + NonEmpty(b)
  {
    if a == [] {
      assert a + b == b;
    } else {
      var ab := a + b;
      assert ab[1..] == a[1..] + b;
      NonEmptyAppend(a[1..], b);
      var head := if a[0] == [] then [] else [a[0]];
      assert NonEmpty(ab) == head + NonEmpty(ab[1..]);
    }
  }

  /** `field.split(',').map(e => e.trim()).filter(e => e.length > 0)`. */
  function Recipients(field: string): seq<string> {
    NonEmpty(TrimEach(Split(field, ',')))
  }

  /** `x` is one of the pieces, trimmed. */
  predicate IsTrimmedPiece(pieces: seq<string>, x: string) {
    exists j :: 0 <= j < |pieces| && x == Trim(pieces[j])
  }

  /** Each entry the filter keeps is one of the pieces, trimmed. */
  lemma TrimmedPieceAt(pieces: seq<string>, k: nat)
    requires k < |NonEmpty(TrimEach(pieces))|
    ensures IsTrimmedPiece(pieces, NonEmpty(TrimEach(pieces))[k])
  {
    var trimmed := TrimEach(pieces);
    var r := NonEmpty(trimmed);
    NonEmptyMembers(trimmed);
    assert r[k] in trimmed;
    var j :| 0 <= j < |trimmed| && trimmed[j] == r[k];
  }

  /** Every recipient is one comma-separated segment of the field, trimmed; it is non-empty, trimmed and free of commas. */
  lemma RecipientsWellFormed(field: string)
    ensures var r := Recipients(field);
      forall k :: 0 <= k < |r| ==> r[k] != [] && ',' !in r[k] && Trim(r[k]) == r[k]
    ensures var r := Recipients(field);
      forall k :: 0 <= k < |r| ==> IsTrimmedPiece(Split(field, ','), r[k])
  {
    var pieces := Split(field, ',');
    var r := Recipients(field);
    RecipientsClean(field);
    forall k | 0 <= k < |r| ensures IsTrimmedPiece(pieces, r[k]) {
      TrimmedPieceAt(pieces, k);
    }
  }

  /** Every recipient is non-empty, trimmed and free of commas. */
  lemma RecipientsClean(field: string)
    ensures var r := Recipients(field);
      forall k :: 0 <= k < |r| ==> r[k] != [] && ',' !in r[k] && Trim(r[k]) == r[k]
  {
    var pieces := Split(field, ',');
    var trimmed := TrimEach(pieces);
    var r := NonEmpty(trimmed);
    NonEmptyMembers(trimmed);
    forall k | 0 <= k < |r| ensures r[k] != [] && ',' !in r[k] && Trim(r[k]) == r[k] {
      assert r[k] in trimmed;
      var j :| 0 <= j < |trimmed| && trimmed[j] == r[k];
      TrimChars(pieces[j]);
      TrimIdempotent(pieces[j]);
    }
  }

  /**
   * Recipients written as comma-separated entries, each possibly padded
   * with white space, come back as the entries, in order.
   */
  lemma RecipientsOfList(padded: seq<string>, entries: seq<string>)
    requires |padded| == |entries|
    requires forall k :: 0 <= k < |padded| ==> ',' !in padded[k] && Trim(padded[k]) == entries[k] && entries[k] != []
    ensures Recipients(Join(padded, ',')) == entries
  {
    if padded == [] {
      RecipientsOfEmpty();
    } else {
      SplitJoin(padded, ',');
      TrimEachOf(padded, entries);
      NonEmptyKeepsAll(entries);
    }
  }

  /**
   * Recipients of comma-separated segments, blank ones included: each
   * segment trimmed, the blank ones dropped, the others kept in order.
   */
  lemma RecipientsOfPieces(padded: seq<string>)
    requires |padded| > 0
    requires forall k :: 0 <= k < |padded| ==> ',' !in padded[k]
    ensures Recipients(Join(padded, ',')) == NonEmpty(TrimEach(padded))
  {
    SplitJoin(padded, ',');
  }

  /** The filter on three entries, entry by entry. */
  lemma NonEmpty3(x: string, y: string, z: string)
    ensures NonEmpty([x, y, z]) == (if x == [] then [] else [x]) + (if y == [] then [] else [y]) + (if z == [] then [] else [z])
  {
    assert [x, y, z][1..] == [y, z] && [y, z][1..] == [z] && [z][1..] == [];
    assert NonEmpty([z]) == (if z == [] then [] else [z]);
    assert NonEmpty([y, z]) == (if y == [] then [] else [y]) + NonEmpty([z]);
    assert NonEmpty([x, y, z]) == (if x == [] then [] else [x]) + NonEmpty([y, z]);
  }

  /** Trimming each entry of a concatenation trims each part. */
  lemma TrimEachAppend(p: seq<string>, q: seq<string>)
    ensures TrimEach(p + q) == TrimEach(p) + TrimEach(q)
  {
    var pq := p + q;
    var l, tp, tq := TrimEach(pq), TrimEach(p), TrimEach(q);
    forall k | 0 <= k < |pq| ensures l[k] == (tp + tq)[k] {
      assert l[k] == Trim(pq[k]);
      if k < |p| {
        assert pq[k] == p[k] && tp[k] == Trim(p[k]);
        assert (tp + tq)[k] == tp[k];
      } else {
        assert pq[k] == q[k - |p|] && tq[k - |p|] == Trim(q[k - |p|]);
        assert (tp + tq)[k] == tq[k - |p|];
      }
    }
    assert |l| == |tp + tq|;
  }

  /** Trimming three entries, entry by entry. */
  lemma TrimEach3(x: string, y: string, z: string)
    ensures TrimEach([x, y, z]) == [Trim(x), Trim(y), Trim(z)]
  {
    var xyz := [x, y, z];
    var t := TrimEach(xyz);
    var want := [Trim(x), Trim(y), Trim(z)];
    assert xyz[0] == x && xyz[1] == y && xyz[2] == z;
    assert |t| == 3 == |want|;
    forall k | 0 <= k < 3 ensures t[k] == want[k] {
      assert t[k] == Trim(xyz[k]);
    }
  }

  /** A blank piece trims to a blank entry. */
  lemma TrimEachBlank()
    ensures TrimEach([""]) == [""]
  {
    var t := TrimEach([""]);
    assert t[0] == Trim("") == "";
  }

  /** A blank last piece leaves the trimmed, filtered pieces as they were. */
  lemma BlankPieceDropped(pieces: seq<string>)
    ensures NonEmpty(TrimEach(pieces + [""])) == NonEmpty(TrimEach(pieces))
  {
    var e: string := [];
    TrimEachAppend(pieces, [e]);
    TrimEachBlank();
    NonEmptyAppend(TrimEach(pieces), [e]);
    assert NonEmpty([e]) == [] by {
      assert [e][1..] == [];
    }
  }

  /** A trailing comma adds no recipient: "a, b," has the recipients of "a, b". */
  lemma RecipientsTrailingComma(padded: seq<string>)
    requires |padded| > 0
    requires forall k :: 0 <= k < |padded| ==> ',' !in padded[k]
    ensures Recipients(Join(padded + [""], ',')) == Recipients(Join(padded, ','))
  {
    var more := padded + [""];
    assert Recipients(Join(more, ',')) == NonEmpty(TrimEach(more)) by {
      assert forall k :: 0 <= k < |more| ==> ',' !in more[k];
      RecipientsOfPieces(more);
    }
    RecipientsOfPieces(padded);
    BlankPieceDropped(padded);
  }

  /** An empty segment between two commas is dropped: "a,,b" gives [a, b]. */
  lemma RecipientsSkipBlankSegment(a: string, b: string)
    requires a != [] && ',' !in a && Trim(a) == a
    requires b != [] && ',' !in b && Trim(b) == b
    ensures Recipients(Join([a, "", b], ',')) == [a, b]
  {
    var e: string := [];
    var padded := [a, e, b];
    RecipientsOfPieces(padded);
    assert TrimEach(padded) == padded by {
      TrimEach3(a, e, b);
      TrimUnpadded(e);
    }
    assert NonEmpty(padded) == [a, b] by {
      NonEmpty3(a, e, b);
      assert [a] + [] + [b] == [a, b];
    }
  }

  /** An empty field has no recipient. */
  lemma RecipientsOfEmpty()
    ensures Recipients([]) == []
  {
    var e: string := [];
    assert Split(e, ',') == [e];
    assert Trim(e) == e by {
      TrimOfPadded(e, e, e);
    }
    var t := TrimEach([e]);
    assert |t| == 1 && t[0] == Trim(e);
    NonEmptyOfBlanks(t);
  }

  lemma TrimEachOf(padded: seq<string>, entries: seq<string>)
    requires |padded| == |entries|
    requires forall k :: 0 <= k < |padded| ==> Trim(padded[k]) == entries[k]
    ensures TrimEach(padded) == entries
  {
  }

  /** The field "a, b" is the join of "a" and " b" on commas. */
  lemma JoinCommaSpace(a: string, b: string)
    ensures Join([a, " " + b], ',') == a + ", " + b
  {
    var parts := [a, " " + b];
    assert parts[1..] == [" " + b];
    assert Join(parts[1..], ',') == " " + b;
    assert a + [','] + (" " + b) == a + ", " + b;
  }

  /** Trimming leaves "a, b" alone when "a" and "b" are trimmed and non-empty. */
  lemma CommaSpaceTrimmed(a: string, b: string)
    requires a != [] && Trim(a) == a
    requires b != [] && Trim(b) == b
    ensures Trim(a + ", " + b) == a + ", " + b
  {
    var field := a + ", " + b;
    TrimUnpadded(a);
    TrimUnpadded(b);
    assert field[0] == a[0] && field[|field| - 1] == b[|b| - 1];
    TrimUnpadded(field);
  }

  /** The entry " b" is free of commas and trims to "b". */
  lemma SpacedEntry(b: string)
    requires b != [] && ',' !in b && Trim(b) == b
    ensures ',' !in " " + b && Trim(" " + b) == b
  {
    SpacedEntryTrims(b);
    assert forall c :: c in " " + b ==> c == ' ' || c in b;
  }

  lemma SpacedEntryTrims(b: string)
    requires b != [] && Trim(b) == b
    ensures Trim(" " + b) == b
  {
    TrimUnpadded(b);
    TrimOfPadded(" ", b, []);
    assert " " + b + [] == " " + b;
  }

  /** The entries "a" and " b" are read back as "a" and "b". */
  lemma CommaSpaceEntries(a: string, b: string)
    requires a != [] && ',' !in a && Trim(a) == a
    requires b != [] && ',' !in b && Trim(b) == b
    ensures Recipients(Join([a, " " + b], ',')) == [a, b]
  {
    var padded, entries := [a, " " + b], [a, b];
    SpacedEntry(b);
    forall k | 0 <= k < |padded| ensures ',' !in padded[k] && Trim(padded[k]) == entries[k] && entries[k] != [] {
      if k == 1 {
        assert padded[k] == " " + b;
      }
    }
    RecipientsOfList(padded, entries);
  }

  /**
   * Two addresses typed as "a, b" (e.g. "a@x.com, b@y.com")
   * come back as the two addresses.
   */
  lemma RecipientsCommaSpace(a: string, b: string)
    requires a != [] && ',' !in a && Trim(a) == a
    requires b != [] && ',' !in b && Trim(b) == b
    ensures Recipients(Trim(a + ", " + b)) == [a, b]
  {
    CommaSpaceTrimmed(a, b);
    JoinCommaSpace(a, b);
    CommaSpaceEntries(a, b);
  }

  /** A field of commas and white space only yields no recipient at all. */
  lemma RecipientsOfCommas(field: string)
    requires forall i :: 0 <= i < |field| ==> field[i] == ',' || IsSpace(field[i])
    ensures Recipients(field) == []
  {
    var pieces := Split(field, ',');
    SplitChars(field, ',');
    var trimmed := TrimEach(pieces);
    forall k | 0 <= k < |trimmed| ensures trimmed[k] == [] {
      assert AllSpace(pieces[k]) by {
        forall i | 0 <= i < |pieces[k]| ensures IsSpace(pieces[k][i]) {
          var c := pieces[k][i];
          assert c in pieces[k];
          assert c in field;
          var j :| 0 <= j < |field| && field[j] == c;
          assert c != ',';
        }
      }
      TrimEmptyIff(pieces[k]);
    }
    NonEmptyOfBlanks(trimmed);
  }

  /** `${name} (${category})\n\n${summary.trim()}`: the header line, a blank line, then the trimmed summary. */
  function EmailBody(name: string, category: string, summary: string): (body: string)
    ensures |body| == |name| + 2 + |category| + 3 + |Trim(summary)|
    ensures body[..|name|] == name
    ensures body[|name|..|name| + 2 + |category| + 3] == " (" + category + ")\n\n"
    ensures body[|name| + 2 + |category| + 3..] == Trim(summary)
  {
    var header, text := " (" + category + ")\n\n", Trim(summary);
    var body := name + header + text;
    assert |header| == 2 + |category| + 3;
    assert body[..|name|] == name && body[|name|..|name| + |header|] == header && body[|name| + |header|..] == text;
    body
  }

  /**
   * The guard and request of "send": no request unless the active document
   * has a summary with a non-space character and the address field has one;
   * otherwise the e-mail body and the parsed addresses of the trimmed field.
   */
  function EmailRequest(active: Option<Transcript>, field: string): (r: Option<EmailCall>)
    ensures r.Some? <==> && active.Some? && active.value.summary.Some?
                         && !AllSpace(active.value.summary.value) && !AllSpace(field)
    ensures r.Some? ==> r.value.summary == EmailBody(active.value.name, active.value.category, active.value.summary.value)
    ensures r.Some? ==> r.value.emails == Recipients(Trim(field))
  {
    TrimEmptyIff(field);
    if active.None? || active.value.summary.None? then None
    else
      var t := active.value;
      TrimEmptyIff(t.summary.value);
      if Trim(t.summary.value) == [] || Trim(field) == [] then None
      else Some(EmailCall(EmailBody(t.name, t.category, t.summary.value), Recipients(Trim(field))))
  }

  /** A field of commas and white space with at least one comma is not blank, and its trimmed text has no recipient. */
  lemma CommaFieldHasNoRecipient(field: string)
    requires ',' in field
    requires forall i :: 0 <= i < |field| ==> field[i] == ',' || IsSpace(field[i])
    ensures !AllSpace(field) && Recipients(Trim(field)) == []
  {
    var i :| 0 <= i < |field| && field[i] == ',';
    assert !IsSpace(field[i]);
    var trimmed := Trim(field);
    TrimChars(field);
    forall k | 0 <= k < |trimmed| ensures trimmed[k] == ',' || IsSpace(trimmed[k]) {
      assert trimmed[k] in field;
    }
    RecipientsOfCommas(trimmed);
  }

  /**
   * Such a field, "," for one, passes the blank check and still yields an
   * empty recipient list.
   */
  lemma CommaFieldPassesGuard(t: Transcript, field: string)
    requires t.summary.Some? && !AllSpace(t.summary.value)
    requires ',' in field
    requires forall i :: 0 <= i < |field| ==> field[i] == ',' || IsSpace(field[i])
    ensures EmailRequest(Some(t), field) == Some(EmailCall(EmailBody(t.name, t.category, t.summary.value), []))
  {
    CommaFieldHasNoRecipient(field);
  }
}
