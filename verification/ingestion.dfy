/**
 * The batch loader (`main` in src/ingest.py): walk the data directory in
 * listing order, keep each `.txt` entry whose stripped text is not empty,
 * insert `(filename, stripped text, embedding)` for it, and commit once after
 * the loop.
 *
 * The directory is a sequence of entries holding each file's name and its
 * decoded text; the sentence encoder is the parameter `encode`.
 */
module Ingestion {
  import opened Text
  import opened PgVector

  /** One directory entry: the file name and the text read from it. */
  datatype Entry = Entry(name: string, raw: string)

  /** One row of the `dialogues` table. */
  datatype Record = Record(filename: string, content: string, embedding: seq<Float>)

  /**
   * An entry is loaded exactly when its name ends in `.txt` and its stripped
   * text is not empty, that is, its text is not all whitespace.
   */
  predicate Qualifies(e: Entry)
    ensures Qualifies(e) <==> EndsWith(e.name, ".txt") && !AllSpace(e.raw)
  {
    EndsWith(e.name, ".txt") && Strip(e.raw) != ""
  }

  /**
   * The record inserted for a qualifying entry: under the entry's name, its
   * text with no whitespace left at either end (empty only when the text is
   * all whitespace), and the embedding of that text.
   */
  function ToRecord(e: Entry, encode: string -> seq<Float>): (r: Record)
    ensures r.filename == e.name
    ensures exists i, j :: 0 <= i <= j <= |e.raw| && r.content == e.raw[i..j] &&
                           AllSpace(e.raw[..i]) && AllSpace(e.raw[j..])
    ensures r.content == "" <==> AllSpace(e.raw)
    ensures r.content != "" ==> !IsSpace(r.content[0]) && !IsSpace(r.content[|r.content| - 1])
    ensures r.embedding == encode(r.content)
  {
    Record(e.name, Strip(e.raw), encode(Strip(e.raw)))
  }

  /** The records one run inserts for `listing`, in listing order. */
  function Selected(listing: seq<Entry>, encode: string -> seq<Float>): (rs: seq<Record>)
    ensures |rs| <= |listing|
    ensures forall k :: 0 <= k < |rs| ==> EndsWith(rs[k].filename, ".txt") && rs[k].content != ""
  {
    if listing == [] then []
    else
      var last := listing[|listing| - 1];
      Selected(listing[..|listing| - 1], encode) + (if Qualifies(last) then [ToRecord(last, encode)] else [])
  }

  /**
   * The table: the rows committed so far and the inserts of the open
   * transaction. `commits` counts the commits made on it.
   */
  class Table {
    var committed: seq<Record>
    var pending: seq<Record>
    ghost var commits: nat

    constructor (rows: seq<Record>)
      ensures committed == rows && pending == [] && commits == 0
    {
      committed := rows;
      pending := [];
      commits := 0;
    }

    /** `INSERT INTO dialogues ...` inside the open transaction. */
    method Insert(r: Record)
      modifies this
      ensures pending == old(pending) + [r]
      ensures committed == old(committed) && commits == old(commits)
    {
      pending := pending + [r];
    }

    /** `conn.commit()`: the open transaction's inserts become rows of the table. */
    method Commit()
      modifies this
      ensures committed == old(committed) + old(pending)
      ensures pending == []
      ensures commits == old(commits) + 1
    {
      committed := committed + pending;
      pending := [];
      commits := commits + 1;
    }
  }

  /**
   * `main()`: on a fresh connection, inserts the record of every qualifying
   * entry in listing order and commits them together, once; rows already in
   * the table are kept and nothing is de-duplicated.
   */
  method Ingest(table: Table, listing: seq<Entry>, encode: string -> seq<Float>)
    requires table.pending == []
    modifies table
    ensures table.committed == old(table.committed) + Selected(listing, encode)
    ensures table.pending == []
    ensures table.commits == old(table.commits) + 1
  {
    for i := 0 to |listing|
      invariant table.committed == old(table.committed) && table.commits == old(table.commits)
      invariant table.pending == Selected(listing[..i], encode)
    {
      assert listing[..i + 1][..i] == listing[..i];
      var entry := listing[i];
      if !EndsWith(entry.name, ".txt") {
        continue;
      }
      var content := Strip(entry.raw);
      if content == "" {
        continue;
      }
      var embedding := encode(content);
      table.Insert(Record(entry.name, content, embedding));
    }
    assert listing[..|listing|] == listing;
    table.Commit();
  }

  /** Running the loader twice over the same listing stores every qualifying record twice. */
  method IngestTwice(table: Table, listing: seq<Entry>, encode: string -> seq<Float>)
    requires table.pending == []
    modifies table
    ensures table.committed == old(table.committed) + Selected(listing, encode) + Selected(listing, encode)
    ensures table.pending == [] && table.commits == old(table.commits) + 2
  {
    Ingest(table, listing, encode);
    Ingest(table, listing, encode);
  }

  /** Loading two listings one after the other selects from each in turn. */
  lemma {:induction false} SelectedAppend(a: seq<Entry>, b: seq<Entry>, encode: string -> seq<Float>)
    ensures Selected(a + b, encode) == Selected(a, encode) + Selected(b, encode)
    decreases |b|
  {
    if b != [] {
      var ab := a + b;
      assert ab[..|ab| - 1] == a + b[..|b| - 1];
      assert ab[|ab| - 1] == b[|b| - 1];
      SelectedAppend(a, b[..|b| - 1], encode);
    } else {
      assert a + b == a;
    }
  }

  /**
   * A record is inserted exactly when some qualifying entry yields it: its
   * file name is the entry's name and its content the entry's stripped text.
   */
  lemma {:induction false} SelectedMembers(listing: seq<Entry>, encode: string -> seq<Float>, r: Record)
    ensures r in Selected(listing, encode) <==> exists e :: e in listing && Qualifies(e) && r == ToRecord(e, encode)
  {
    if listing != [] {
      var init := listing[..|listing| - 1];
      var last := listing[|listing| - 1];
      var added := if Qualifies(last) then [ToRecord(last, encode)] else [];
      SelectedMembers(init, encode, r);
      assert listing == init + [last];
      assert Selected(listing, encode) == Selected(init, encode) + added;
      if r in added {
        assert last in listing;
      }
      if exists e :: e in listing && Qualifies(e) && r == ToRecord(e, encode) {
        var e :| e in listing && Qualifies(e) && r == ToRecord(e, encode);
        if e != last {
          assert e in init;
        }
      }
    }
  }

  /**
   * Every stored record comes from a `.txt` entry and holds non-empty,
   * already stripped text.
   */
  lemma SelectedRecordsWellFormed(listing: seq<Entry>, encode: string -> seq<Float>, r: Record)
    requires r in Selected(listing, encode)
    ensures EndsWith(r.filename, ".txt")
    ensures r.content != "" && Strip(r.content) == r.content
    ensures r.embedding == encode(r.content)
  {
    SelectedMembers(listing, encode, r);
    var e :| e in listing && Qualifies(e) && r == ToRecord(e, encode);
    StripIdempotent(e.raw);
  }

  /**
   * One run never inserts more records than there are entries, and inserts as
   * many as there are entries exactly when every entry qualifies.
   */
  lemma {:induction false} SelectedCount(listing: seq<Entry>, encode: string -> seq<Float>)
    ensures |Selected(listing, encode)| == |QualifyingPositions(listing)|
    ensures |Selected(listing, encode)| <= |listing|
    ensures |Selected(listing, encode)| == |listing| <==> forall e :: e in listing ==> Qualifies(e)
  {
    InsertsMatchQualifying(listing, encode);
    AllSelected(listing, encode);
  }

  lemma {:induction false} AllSelected(listing: seq<Entry>, encode: string -> seq<Float>)
    ensures |Selected(listing, encode)| == |listing| <==> forall e :: e in listing ==> Qualifies(e)
  {
    if listing != [] {
      var init := listing[..|listing| - 1];
      var last := listing[|listing| - 1];
      AllSelected(init, encode);
      assert listing == init + [last];
      if forall e :: e in listing ==> Qualifies(e) {
        assert forall e :: e in init ==> e in listing;
        assert last in listing;
      }
      if !Qualifies(last) {
        assert last in listing;
      }
      if Qualifies(last) && !(forall e :: e in init ==> Qualifies(e)) {
        var e :| e in init && !Qualifies(e);
        assert e in listing;
      }
    }
  }

  /** Positions in `listing` of the entries that qualify. */
  function QualifyingPositions(listing: seq<Entry>): (ps: set<nat>)
    ensures forall i :: i in ps ==> i < |listing|
  {
    set i: nat | i < |listing| && Qualifies(listing[i])
  }

  lemma PositionsSnoc(init: seq<Entry>, last: Entry)
    ensures QualifyingPositions(init + [last]) ==
            QualifyingPositions(init) + (if Qualifies(last) then {|init|} else {})
    ensures |init| !in QualifyingPositions(init)
  {
    var listing := init + [last];
    forall i: nat | i < |init| ensures listing[i] == init[i] { }
    assert listing[|init|] == last;
  }

  /** One run inserts exactly as many records as there are qualifying entries. */
  lemma {:induction false} InsertsMatchQualifying(listing: seq<Entry>, encode: string -> seq<Float>)
    ensures |Selected(listing, encode)| == |QualifyingPositions(listing)|
  {
    if listing == [] {
      assert QualifyingPositions(listing) == {};
    } else {
      var init := listing[..|listing| - 1];
      var last := listing[|listing| - 1];
      InsertsMatchQualifying(init, encode);
      assert listing == init + [last];
      PositionsSnoc(init, last);
    }
  }

  /** An entry that does not qualify is skipped without trace. */
  lemma SkippedEntry(listing: seq<Entry>, e: Entry, encode: string -> seq<Float>)
    requires !Qualifies(e)
    ensures Selected(listing + [e], encode) == Selected(listing, encode)
  {
    assert (listing + [e])[..|listing|] == listing;
  }
}
