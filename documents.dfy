/**
 * The transcript documents of the page and the pure list operations its
 * handlers apply to them: the merge of an update, `map` for updates,
 * `filter` for deletion, `find` for the active document, and the naming
 * rules for new and uploaded documents.
 */
module Documents {
  import opened Wrappers
  import opened Text

  datatype Transcript = Transcript(id: string, name: string, content: string, category: string, summary: Option<string>)

  /** The fields of a `Partial<Transcript>` update; `Some` is a field the update sets. */
  datatype Patch = Patch(name: Option<string>, content: Option<string>, category: Option<string>, summary: Option<string>)

  const Categories: seq<string> := ["Client Call", "Team Sync", "Project Review", "Strategy Meeting", "One-on-One", "Other"]

  /** The category every new document gets. */
  const DefaultCategory := "Other"

  predicate HasId(ts: seq<Transcript>, id: string) {
    exists i :: 0 <= i < |ts| && ts[i].id == id
  }

  /** Ids as the generator makes them: never empty, never repeated. */
  predicate ValidIds(ts: seq<Transcript>) {
    && (forall i :: 0 <= i < |ts| ==> ts[i].id != "")
    && (forall i, j :: 0 <= i < j < |ts| ==> ts[i].id != ts[j].id)
  }

  /** The selection invariant: no active id, or the id of a document in the list. */
  predicate Selects(ts: seq<Transcript>, active: Option<string>) {
    active.None? || HasId(ts, active.value)
  }

  /** Appending a document with a new, non-empty id keeps the ids valid. */
  lemma AppendKeepsValidIds(ts: seq<Transcript>, t: Transcript)
    requires ValidIds(ts) && t.id != "" && !HasId(ts, t.id)
    ensures ValidIds(ts + [t])
  {
    var all := ts + [t];
    forall i, j | 0 <= i < j < |all| ensures all[i].id != all[j].id {
      if j == |ts| {
        assert all[i] == ts[i];
      } else {
        assert all[i] == ts[i] && all[j] == ts[j];
      }
    }
  }

  /** The document "new" creates when the list holds `count` documents. */
  function NewMeeting(id: string, count: nat): Transcript {
    Transcript(id, "Meeting " + Decimal(count + 1), "", DefaultCategory, None)
  }

  /** `fileName.replace('.txt', '')`: only the first ".txt" is removed, wherever it is. */
  function FileTitle(fileName: string): string {
    RemoveFirst(fileName, ".txt")
  }

  /** The document an uploaded plain-text file becomes. */
  function FromFile(id: string, fileName: string, text: string): Transcript {
    Transcript(id, FileTitle(fileName), text, DefaultCategory, None)
  }

  /**
   * The new document is called "Meeting " followed by the decimal numeral
   * of its position, counted from one, written in digits without a leading
   * zero; it is empty, unsummarized, and filed under "Other", which is one
   * of the listed categories.
   */
  lemma NewMeetingShape(id: string, count: nat)
    ensures var t := NewMeeting(id, count);
      && t.id == id && |t.name| > 8 && t.name[..8] == "Meeting "
      && t.name[8..] == Decimal(count + 1) && t.name[8] != '0'
      && (forall i :: 8 <= i < |t.name| ==> IsDigit(t.name[i]))
      && DecimalValue(t.name[8..]) == count + 1
      && t.content == "" && t.category == DefaultCategory && t.category in Categories && t.summary == None
  {
    var t, numeral := NewMeeting(id, count), Decimal(count + 1);
    assert t.name[8..] == numeral;
    forall i | 8 <= i < |t.name| ensures IsDigit(t.name[i]) {
      assert t.name[i] == numeral[i - 8];
    }
    assert t.name[8] == numeral[0];
    DecimalRoundTrip(count + 1);
  }

  /** An uploaded file becomes an unsummarized document with the file's title and text, filed under "Other". */
  lemma FromFileShape(id: string, fileName: string, text: string)
    ensures var t := FromFile(id, fileName, text);
      && t.id == id && t.name == FileTitle(fileName) && t.content == text
      && t.category == DefaultCategory && t.category in Categories && t.summary == None
  {
  }

  /** A file name that ends in ".txt" and has no other ".txt" loses exactly that extension. */
  lemma FileTitleDropsExtension(stem: string)
    requires forall j: nat :: !OccursAt(stem, ".txt", j)
    ensures FileTitle(stem + ".txt") == stem
  {
    var s := stem + ".txt";
    forall j: nat | j < |stem| ensures !OccursAt(s, ".txt", j) {
      if j + 4 <= |stem| {
        assert s[j..j + 4] == stem[j..j + 4];
        assert !OccursAt(stem, ".txt", j);
      } else {
        // The window would hold the extension's '.', which ".txt" has only at its start.
        var d := |stem| - j;
        assert s[j..j + 4][d] == s[|stem|] == '.';
        assert ".txt"[d] != '.';
      }
    }
    assert OccursAt(s, ".txt", |stem|);
    assert s[..|stem|] == stem && s[|stem| + 4..] == [];
  }

  /** The upload naming rule on a file named "standup.txt": it becomes "standup". */
  lemma StandupFileTitle()
    ensures FileTitle("standup" + ".txt") == "standup"
  {
    assert '.' !in "standup";
    NoDotNoExtension("standup");
    FileTitleDropsExtension("standup");
  }

  /** A name without a '.' holds no ".txt". */
  lemma NoDotNoExtension(stem: string)
    requires '.' !in stem
    ensures forall j: nat :: !OccursAt(stem, ".txt", j)
  {
    forall j: nat | j + 4 <= |stem| ensures !OccursAt(stem, ".txt", j) {
      assert stem[j..j + 4][0] == stem[j];
    }
  }

  /** For a name whose stem has no '.', only the ".txt" right after the stem goes; everything after it stays. */
  lemma FileTitleKeepsRest(stem: string, rest: string)
    requires '.' !in stem
    ensures FileTitle(stem + ".txt" + rest) == stem + rest
  {
    var ext := ".txt";
    var s := stem + ext + rest;
    forall j: nat | j < |stem| ensures !OccursAt(s, ext, j) {
      assert s[j..j + 4][0] == s[j] == stem[j];
    }
    assert s[|stem|..|stem| + 4] == ext;
    assert s[..|stem|] == stem && s[|stem| + 4..] == rest;
  }

  /** Only the first ".txt" goes: "notes.txt.txt" becomes "notes.txt". */
  lemma FileTitleOnlyFirst()
    ensures FileTitle("notes" + ".txt" + ".txt") == "notes" + ".txt"
  {
    assert '.' !in "notes";
    FileTitleKeepsRest("notes", ".txt");
  }

  /** `{ ...transcript, ...updates }`: the fields the patch sets, the old ones elsewhere. */
  function Merge(t: Transcript, p: Patch): Transcript {
    Transcript(t.id, p.name.GetOr(t.name), p.content.GetOr(t.content), p.category.GetOr(t.category),
      if p.summary.Some? then p.summary else t.summary)
  }

  /** Each field the patch sets takes the patch's value; every other field, and the id, keeps the old one. */
  lemma MergeFields(t: Transcript, p: Patch)
    ensures var m := Merge(t, p);
      && m.id == t.id
      && m.name == (if p.name.Some? then p.name.value else t.name)
      && m.content == (if p.content.Some? then p.content.value else t.content)
      && m.category == (if p.category.Some? then p.category.value else t.category)
      && m.summary == (if p.summary.Some? then p.summary else t.summary)
  {
  }

  /** `{ ...p, ...q }`: the later patch wins on every field both set. */
  function Then(p: Patch, q: Patch): Patch {
    Patch(if q.name.Some? then q.name else p.name, if q.content.Some? then q.content else p.content,
      if q.category.Some? then q.category else p.category, if q.summary.Some? then q.summary else p.summary)
  }

  /** Merging keeps the id, an empty patch changes nothing, and two merges are one merge of the combined patch. */
  lemma MergeLaws(t: Transcript, p: Patch, q: Patch)
    ensures Merge(t, p).id == t.id
    ensures Merge(t, Patch(None, None, None, None)) == t
    ensures Merge(Merge(t, p), q) == Merge(t, Then(p, q))
    ensures Merge(Merge(t, p), p) == Merge(t, p)
  {
  }

  /** `ts.map(t => t.id === id ? { ...t, ...p } : t)`. */
  function UpdateAll(ts: seq<Transcript>, id: string, p: Patch): (r: seq<Transcript>)
    ensures |r| == |ts|
    ensures forall i :: 0 <= i < |ts| ==> r[i] == if ts[i].id == id then Merge(ts[i], p) else ts[i]
  {
    if ts == [] then [] else [if ts[0].id == id then Merge(ts[0], p) else ts[0]] + UpdateAll(ts[1..], id, p)
  }

  /** An update keeps every id in place, and so keeps both invariants of the list. */
  lemma UpdateKeepsIds(ts: seq<Transcript>, id: string, p: Patch, active: Option<string>)
    ensures forall i :: 0 <= i < |ts| ==> UpdateAll(ts, id, p)[i].id == ts[i].id
    ensures ValidIds(ts) ==> ValidIds(UpdateAll(ts, id, p))
    ensures Selects(ts, active) == Selects(UpdateAll(ts, id, p), active)
  {
    var r := UpdateAll(ts, id, p);
    if active.Some? && HasId(ts, active.value) {
      var i :| 0 <= i < |ts| && ts[i].id == active.value;
      assert r[i].id == active.value;
    }
    if active.Some? && HasId(r, active.value) {
      var i :| 0 <= i < |r| && r[i].id == active.value;
      assert ts[i].id == active.value;
    }
  }

  /** An id no document has makes the update a no-op. */
  lemma UpdateAbsentIsNoOp(ts: seq<Transcript>, id: string, p: Patch)
    requires !HasId(ts, id)
    ensures UpdateAll(ts, id, p) == ts
  {
    var r := UpdateAll(ts, id, p);
    forall i | 0 <= i < |ts| ensures r[i] == ts[i] {
      assert ts[i].id != id;
    }
  }

  /** With unique ids, an update of one document's id changes that document alone. */
  lemma UpdateOne(ts: seq<Transcript>, k: nat, p: Patch)
    requires ValidIds(ts) && k < |ts|
    ensures UpdateAll(ts, ts[k].id, p) == ts[k := Merge(ts[k], p)]
  {
    var r := UpdateAll(ts, ts[k].id, p);
    forall i | 0 <= i < |ts| ensures r[i] == ts[k := Merge(ts[k], p)][i] {
      if i != k {
        assert ts[i].id != ts[k].id;
      }
    }
  }

  /** `ts.filter(t => t.id !== id)`. */
  function RemoveId(ts: seq<Transcript>, id: string): seq<Transcript> {
    if ts == [] then []
    else (if ts[0].id == id then [] else [ts[0]]) + RemoveId(ts[1..], id)
  }

  /** The filter keeps exactly the documents with another id, and never lengthens the list. */
  lemma {:induction false} RemoveIdMembers(ts: seq<Transcript>, id: string)
    ensures |RemoveId(ts, id)| <= |ts|
    ensures forall t :: t in RemoveId(ts, id) <==> t in ts && t.id != id
  {
    if ts != [] {
      RemoveIdMembers(ts[1..], id);
      assert forall t :: t in ts <==> t == ts[0] || t in ts[1..];
    }
  }

  /** Filtering works element by element, so the kept documents stay in their relative order. */
  lemma {:induction false} RemoveIdAppend(a: seq<Transcript>, b: seq<Transcript>, id: string)
    ensures RemoveId(a + b, id) == RemoveId(a, id) + RemoveId(b, id)
  {
    if a == [] {
      assert a + b == b;
    } else {
      var ab, head := a + b, if a[0].id == id then [] else [a[0]];
      assert ab[0] == a[0] && ab[1..] == a[1..] + b;
      RemoveIdAppend(a[1..], b, id);
      assert RemoveId(ab, id) == head + RemoveId(ab[1..], id);
    }
  }

  /** An id no document has makes the deletion a no-op. */
  lemma {:induction false} RemoveAbsentIsNoOp(ts: seq<Transcript>, id: string)
    requires !HasId(ts, id)
    ensures RemoveId(ts, id) == ts
  {
    if ts != [] {
      assert ts[0].id != id;
      assert !HasId(ts[1..], id) by {
        forall i | 0 <= i < |ts[1..]| ensures ts[1..][i].id != id {
          assert ts[1..][i] == ts[i + 1];
        }
      }
      RemoveAbsentIsNoOp(ts[1..], id);
      assert ts == [ts[0]] + ts[1..];
    }
  }

  /** In a list with unique ids, no document before or after the `k`-th has its id. */
  lemma IdOnlyAt(ts: seq<Transcript>, k: nat)
    requires ValidIds(ts) && k < |ts|
    ensures !HasId(ts[..k], ts[k].id) && !HasId(ts[k + 1..], ts[k].id)
  {
    var head, tail := ts[..k], ts[k + 1..];
    forall i | 0 <= i < |head| ensures head[i].id != ts[k].id {
      assert head[i] == ts[i];
    }
    forall i | 0 <= i < |tail| ensures tail[i].id != ts[k].id {
      assert tail[i] == ts[k + 1 + i];
    }
  }

  /** With unique ids, deleting the `k`-th document's id cuts out exactly that document. */
  lemma RemoveOne(ts: seq<Transcript>, k: nat)
    requires ValidIds(ts) && k < |ts|
    ensures RemoveId(ts, ts[k].id) == ts[..k] + ts[k + 1..]
  {
    IdOnlyAt(ts, k);
    RemoveAt(ts, k);
  }

  /** Deleting the `k`-th document's id, when no other document has it, cuts out exactly that document. */
  lemma {:induction false} RemoveAt(ts: seq<Transcript>, k: nat)
    requires k < |ts| && !HasId(ts[..k], ts[k].id) && !HasId(ts[k + 1..], ts[k].id)
    ensures RemoveId(ts, ts[k].id) == ts[..k] + ts[k + 1..]
  {
    var id, rest := ts[k].id, ts[1..];
    if k == 0 {
      assert rest == ts[k + 1..];
      RemoveAbsentIsNoOp(rest, id);
    } else {
      assert rest[..k - 1] == ts[1..k] && rest[k - 1] == ts[k] && rest[k..] == ts[k + 1..];
      assert !HasId(rest[..k - 1], id) by {
        var front := rest[..k - 1];
        forall i | 0 <= i < |front| ensures front[i].id != id {
          assert ts[..k][i + 1] == front[i];
        }
      }
      RemoveAt(rest, k - 1);
      assert ts[0] == ts[..k][0];
      assert ts[..k] == [ts[0]] + rest[..k - 1];
    }
  }

  /** Cutting one document out of a list with valid ids leaves valid ids. */
  lemma CutKeepsValidIds(ts: seq<Transcript>, k: nat)
    requires ValidIds(ts) && k < |ts|
    ensures ValidIds(ts[..k] + ts[k + 1..])
  {
    var r := ts[..k] + ts[k + 1..];
    assert forall i :: 0 <= i < |r| ==> r[i] == ts[if i < k then i else i + 1];
  }

  /** Deleting keeps unique, non-empty ids. */
  lemma RemoveKeepsValidIds(ts: seq<Transcript>, id: string)
    requires ValidIds(ts)
    ensures ValidIds(RemoveId(ts, id))
  {
    if HasId(ts, id) {
      var k :| 0 <= k < |ts| && ts[k].id == id;
      RemoveOne(ts, k);
      CutKeepsValidIds(ts, k);
    } else {
      RemoveAbsentIsNoOp(ts, id);
    }
  }

  /** The active id after a deletion: the first remaining document's, or none, when the active one went. */
  function NextActive(remaining: seq<Transcript>, active: Option<string>, id: string): Option<string> {
    if active == Some(id) then (if |remaining| > 0 then Some(remaining[0].id) else None) else active
  }

  /** A deletion followed by the re-selection keeps the selection invariant. */
  lemma DeleteKeepsSelection(ts: seq<Transcript>, active: Option<string>, id: string)
    requires Selects(ts, active)
    ensures Selects(RemoveId(ts, id), NextActive(RemoveId(ts, id), active, id))
  {
    var r := RemoveId(ts, id);
    RemoveIdMembers(ts, id);
    if active != Some(id) && active.Some? {
      var i :| 0 <= i < |ts| && ts[i].id == active.value;
      assert ts[i] in r;
      var j :| 0 <= j < |r| && r[j] == ts[i];
    } else if |r| > 0 {
      assert HasId(r, r[0].id);
    }
  }

  /** A deletion with its re-selection keeps the state valid. */
  lemma DeleteKeepsValid(ts: seq<Transcript>, active: Option<string>, id: string)
    requires ValidIds(ts) && Selects(ts, active)
    ensures ValidIds(RemoveId(ts, id)) && Selects(RemoveId(ts, id), NextActive(RemoveId(ts, id), active, id))
  {
    RemoveKeepsValidIds(ts, id);
    DeleteKeepsSelection(ts, active, id);
  }

  /** `ts.find(t => t.id === active)`: the first document with the active id; none when there is no active id. */
  function Find(ts: seq<Transcript>, active: Option<string>): (r: Option<Transcript>)
    ensures r.Some? <==> active.Some? && HasId(ts, active.value)
    ensures r.Some? ==> r.value.id == active.value && r.value in ts
    ensures r.Some? ==> exists k :: 0 <= k < |ts| && ts[k] == r.value && forall j :: 0 <= j < k ==> ts[j].id != active.value
  {
    if active.None? || ts == [] then None
    else if ts[0].id == active.value then Some(ts[0])
    else
      var r := Find(ts[1..], active);
      assert HasId(ts, active.value) ==> HasId(ts[1..], active.value) by {
        if HasId(ts, active.value) {
          var i :| 0 <= i < |ts| && ts[i].id == active.value;
          assert ts[1..][i - 1] == ts[i];
        }
      }
      assert r.Some? ==> exists k :: 0 <= k < |ts| && ts[k] == r.value && forall j :: 0 <= j < k ==> ts[j].id != active.value by {
        if r.Some? {
          var k :| 0 <= k < |ts[1..]| && ts[1..][k] == r.value && forall j :: 0 <= j < k ==> ts[1..][j].id != active.value;
          assert ts[k + 1] == r.value;
          forall j | 0 <= j < k + 1 ensures ts[j].id != active.value {
            if j > 0 { assert ts[j] == ts[1..][j - 1]; }
          }
        }
      }
      r
  }

  /** With unique ids, the active document is the one that has the active id. */
  lemma FindUnique(ts: seq<Transcript>, k: nat)
    requires ValidIds(ts) && k < |ts|
    ensures Find(ts, Some(ts[k].id)) == Some(ts[k])
  {
    var r := Find(ts, Some(ts[k].id));
    assert HasId(ts, ts[k].id);
    var m :| 0 <= m < |ts| && ts[m] == r.value && forall j :: 0 <= j < m ==> ts[j].id != ts[k].id;
    assert m == k;
  }
}
