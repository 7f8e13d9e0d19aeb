/**
 * From sheet rows to recipients: `build_context` turns one row into the
 * substitution context of the templates, and `load_recipients` keeps the
 * rows with a usable company e-mail address, one per address ignoring case.
 */
module Recipients {
  import opened Wrappers
  import opened Text
  import opened Dicts
  import opened Slugs
  import opened Dedup
  import opened Cells
  import opened Sheet

  /** `row.get(key) or ""`: a missing key and an empty value both read "". */
  function Field(row: Dict, key: string): string {
    Get(row, key).GetOr("")
  }

  /** `row.get(h1) or row.get(h2) or ... or ""`: the first non-empty value
      among the given headers. */
  function FirstFilled(row: Dict, headers: seq<string>): (r: string)
    ensures r == "" <==> forall j :: 0 <= j < |headers| ==> Field(row, headers[j]) == ""
    ensures r != "" ==> exists j :: 0 <= j < |headers| && r == Field(row, headers[j])
                                    && forall k :: 0 <= k < j ==> Field(row, headers[k]) == ""
  {
    if headers == [] then ""
    else if Field(row, headers[0]) != "" then Field(row, headers[0])
    else
      var r := FirstFilled(row, headers[1..]);
      assert forall j :: 1 <= j < |headers| ==> headers[j] == headers[1..][j - 1];
      assert r != "" ==> exists j :: 1 <= j < |headers| && r == Field(row, headers[j])
                                    && forall k :: 0 <= k < j ==> Field(row, headers[k]) == "";
      r
  }

  /** The header naming the company e-mail address. */
  const EmailHeader := "Email Perusahaan"

  /** The eight keys every context starts with, in this order. */
  const FixedKeys: seq<string> := ["hospital", "province", "city", "address", "phone", "owner", "director", "email"]

  /** For each fixed key, the headers it is read from, in order of preference. */
  const FixedSources: seq<seq<string>> := [
    ["Rumah Sakit"],
    ["Provinsi"],
    ["Kab/Kota"],
    ["Alamat (List)", "Alamat (Profile)"],
    ["Telepon (List)", "Telepon (Profile)"],
    ["Pemilik (List)", "Kepemilikan"],
    ["Direktur"],
    [EmailHeader]]

  /** The fixed part of the context, each value stripped. */
  function FixedFields(row: Dict): Dict {
    Zip(FixedKeys, seq(|FixedSources|, i requires 0 <= i < |FixedSources| => Strip(FirstFilled(row, FixedSources[i]))))
  }

  /** The fixed part has the fixed keys, in order, with distinct keys; entry
      `i` holds the first non-empty value among its headers, stripped. */
  lemma FixedFieldsShape(row: Dict)
    ensures Keys(FixedFields(row)) == FixedKeys
    ensures DistinctKeys(FixedFields(row))
    ensures forall i :: 0 <= i < |FixedKeys| ==> FixedFields(row)[i].1 == Strip(FirstFilled(row, FixedSources[i]))
  {
    FixedKeysDistinct();
  }

  /** Each header of the row paired with its slug: `(slugify(key), (value or "").strip())`. */
  function SlugEntries(row: Dict): (es: Dict)
    ensures |es| == |row|
  {
    if row == [] then [] else SlugEntries(row[..|row| - 1]) + [(Slugify(row[|row| - 1].0), Strip(row[|row| - 1].1))]
  }

  lemma {:induction false} SlugEntryAt(row: Dict, j: int)
    requires 0 <= j < |row|
    ensures SlugEntries(row)[j] == (Slugify(row[j].0), Strip(row[j].1))
    decreases |row|
  {
    if j < |row| - 1 {
      SlugEntryAt(row[..|row| - 1], j);
    }
  }

  /** The loop over `row.items()`, on slugged entries: a key is added, with
      its value, unless it is empty or already present. */
  function AddNew(ctx: Dict, entries: Dict): Dict
    decreases |entries|
  {
    if entries == [] then ctx else AddNew(AddOne(ctx, entries[0]), entries[1..])
  }

  /** One step of that loop. */
  function AddOne(ctx: Dict, e: (string, string)): Dict {
    if e.0 != "" && e.0 !in Keys(ctx) then Put(ctx, e.0, e.1) else ctx
  }

  /** One step keeps the keys distinct and only appends. */
  lemma AddOneAppends(ctx: Dict, e: (string, string))
    requires DistinctKeys(ctx)
    ensures DistinctKeys(AddOne(ctx, e))
    ensures AddOne(ctx, e) == if e.0 != "" && e.0 !in Keys(ctx) then ctx + [e] else ctx
  {
    if e.0 != "" && e.0 !in Keys(ctx) {
      PutNew(ctx, e.0, e.1);
      PutKeepsDistinct(ctx, e.0, e.1);
    }
  }

  /** `build_context(row)`. */
  function BuildContext(row: Dict): Dict {
    AddNew(FixedFields(row), SlugEntries(row))
  }

  /** No two fixed keys coincide: their first two letters already differ. */
  lemma FixedKeysDistinct()
    ensures forall i, j :: 0 <= i < j < |FixedKeys| ==> FixedKeys[i] != FixedKeys[j]
  {
    var heads: seq<(char, char)> := [('h', 'o'), ('p', 'r'), ('c', 'i'), ('a', 'd'), ('p', 'h'), ('o', 'w'), ('d', 'i'), ('e', 'm')];
    forall i | 0 <= i < |FixedKeys|
      ensures |FixedKeys[i]| >= 2 && (FixedKeys[i][0], FixedKeys[i][1]) == heads[i]
    {
    }
    forall i, j | 0 <= i < j < |FixedKeys|
      ensures FixedKeys[i] != FixedKeys[j]
    {
      assert heads[i] != heads[j];
    }
  }

  /** Adding keys only appends entries with fresh keys. */
  lemma {:induction false} AddNewPrefix(ctx: Dict, entries: Dict)
    requires DistinctKeys(ctx)
    ensures DistinctKeys(AddNew(ctx, entries))
    ensures |AddNew(ctx, entries)| >= |ctx| && AddNew(ctx, entries)[..|ctx|] == ctx
    decreases |entries|
  {
    if entries != [] {
      var next := AddOne(ctx, entries[0]);
      AddOneAppends(ctx, entries[0]);
      AddNewPrefix(next, entries[1..]);
      assert next[..|ctx|] == ctx;
      assert AddNew(ctx, entries)[..|next|][..|ctx|] == ctx;
    }
  }

  /** A key is in the result exactly when it was there before or is the
      non-empty key of some entry. */
  lemma {:induction false} AddNewKeys(ctx: Dict, entries: Dict, k: string)
    ensures k in Keys(AddNew(ctx, entries)) <==> k in Keys(ctx) || (k != "" && k in Keys(entries))
    decreases |entries|
  {
    if entries != [] {
      AddNewKeys(AddOne(ctx, entries[0]), entries[1..], k);
      assert Keys(entries) == [entries[0].0] + Keys(entries[1..]);
    }
  }

  /** A key already in the context keeps its value. */
  lemma AddNewKeepsOld(ctx: Dict, entries: Dict, k: string)
    requires DistinctKeys(ctx) && k in Keys(ctx)
    ensures Get(AddNew(ctx, entries), k) == Get(ctx, k)
  {
    var r := AddNew(ctx, entries);
    AddNewPrefix(ctx, entries);
    assert r == ctx + r[|ctx|..];
    GetAppend(ctx, r[|ctx|..], k);
  }

  /** A new key takes the value of its first entry. */
  lemma {:induction false} AddNewFirstWins(ctx: Dict, entries: Dict, j: int)
    requires DistinctKeys(ctx)
    requires 0 <= j < |entries|
    requires entries[j].0 != "" && entries[j].0 !in Keys(ctx)
    requires forall i :: 0 <= i < j ==> entries[i].0 != entries[j].0
    ensures Get(AddNew(ctx, entries), entries[j].0) == Some(entries[j].1)
    decreases |entries|
  {
    if j == 0 {
      AddNewFirstWinsHead(ctx, entries);
    } else {
      AddNewFirstWinsTail(ctx, entries, j);
      AddNewFirstWins(AddOne(ctx, entries[0]), entries[1..], j - 1);
    }
  }

  /** The first entry's key, when new, keeps the first entry's value. */
  lemma AddNewFirstWinsHead(ctx: Dict, entries: Dict)
    requires DistinctKeys(ctx)
    requires entries != [] && entries[0].0 != "" && entries[0].0 !in Keys(ctx)
    ensures Get(AddNew(ctx, entries), entries[0].0) == Some(entries[0].1)
  {
    var next := AddOne(ctx, entries[0]);
    AddOneAppends(ctx, entries[0]);
    assert next == ctx + [entries[0]];
    GetAppend(ctx, [entries[0]], entries[0].0);
    assert Keys(next) == Keys(ctx) + [entries[0].0];
    AddNewKeepsOld(next, entries[1..], entries[0].0);
  }

  /** The conditions of `AddNewFirstWins` carry over to the rest of the
      entries after the first step. */
  lemma AddNewFirstWinsTail(ctx: Dict, entries: Dict, j: int)
    requires DistinctKeys(ctx)
    requires 0 < j < |entries|
    requires entries[j].0 != "" && entries[j].0 !in Keys(ctx)
    requires forall i :: 0 <= i < j ==> entries[i].0 != entries[j].0
    ensures entries[1..][j - 1] == entries[j]
    ensures DistinctKeys(AddOne(ctx, entries[0]))
    ensures entries[j].0 !in Keys(AddOne(ctx, entries[0]))
    ensures forall i :: 0 <= i < j - 1 ==> entries[1..][i].0 != entries[1..][j - 1].0
  {
    AddOneAppends(ctx, entries[0]);
    assert entries[0].0 != entries[j].0;
  }

  /** A context has distinct keys and starts with the fixed part. */
  lemma BuildContextFixed(row: Dict)
    ensures DistinctKeys(BuildContext(row))
    ensures |BuildContext(row)| >= |FixedKeys| && BuildContext(row)[..|FixedKeys|] == FixedFields(row)
  {
    FixedFieldsShape(row);
    AddNewPrefix(FixedFields(row), SlugEntries(row));
  }

  /** Some header of `row` has the slug `k`. */
  predicate SlugOf(row: Dict, k: string) {
    exists j :: 0 <= j < |row| && Slugify(row[j].0) == k
  }

  /** The context of a row has the fixed keys, then exactly the non-empty
      slugs of the row's headers. */
  lemma BuildContextKeys(row: Dict, k: string)
    ensures k in Keys(BuildContext(row)) <==> k in FixedKeys || (k != "" && SlugOf(row, k))
  {
    var es := SlugEntries(row);
    FixedFieldsShape(row);
    AddNewKeys(FixedFields(row), es, k);
    if k in Keys(es) {
      var j :| 0 <= j < |es| && es[j].0 == k;
      SlugEntryAt(row, j);
    }
    if SlugOf(row, k) {
      var j :| 0 <= j < |row| && Slugify(row[j].0) == k;
      SlugEntryAt(row, j);
      assert Keys(es)[j] == k;
    }
  }

  /** The e-mail key holds the stripped company address, whatever the slugs
      of the headers. */
  lemma BuildContextEmail(row: Dict)
    ensures Get(BuildContext(row), "email") == Some(Email(row))
  {
    var fixed := FixedFields(row);
    FixedFieldsShape(row);
    assert Keys(fixed)[7] == "email";
    AddNewKeepsOld(fixed, SlugEntries(row), "email");
    GetAt(fixed, 7);
    assert FirstFilled(row, FixedSources[7]) == Field(row, EmailHeader);
  }

  /** A slug that is not a fixed key takes the value of the first header with
      that slug. */
  lemma BuildContextSlugValue(row: Dict, j: int)
    requires 0 <= j < |row|
    requires Slugify(row[j].0) != "" && Slugify(row[j].0) !in FixedKeys
    requires forall i :: 0 <= i < j ==> Slugify(row[i].0) != Slugify(row[j].0)
    ensures Get(BuildContext(row), Slugify(row[j].0)) == Some(Strip(row[j].1))
  {
    var es := SlugEntries(row);
    FixedFieldsShape(row);
    SlugEntryAt(row, j);
    forall i | 0 <= i < j
      ensures es[i].0 != es[j].0
    {
      SlugEntryAt(row, i);
    }
    AddNewFirstWins(FixedFields(row), es, j);
  }

  // ---------------------------------------------------------------------
  // `load_recipients`

  /** The stripped company address: no whitespace at either end. */
  function Email(row: Dict): (e: string)
    ensures e == [] || (!IsSpace(e[0]) && !IsSpace(e[|e| - 1]))
  {
    Strip(Field(row, EmailHeader))
  }

  /** `if not email or "@" not in email: continue` lets the row through.
      An `@` alone decides it: an address holding one is never empty. */
  function HasUsableEmail(row: Dict): (ok: bool)
    ensures ok <==> exists i :: 0 <= i < |Email(row)| && Email(row)[i] == '@'
  {
    Email(row) != "" && '@' in Email(row)
  }

  /** The key of the seen set: the address in lower case. It has no
      upper-case letter and differs from the address only where the address
      has one. */
  function EmailKey(row: Dict): (k: string)
    ensures |k| == |Email(row)|
    ensures forall i :: 0 <= i < |k| ==> !IsUpper(k[i]) && (IsUpper(Email(row)[i]) || k[i] == Email(row)[i])
    ensures forall i :: 0 <= i < |k| ==> k[i] == LowerChar(Email(row)[i])
  {
    Lower(Email(row))
  }

  /** The filter flag of every row. */
  function Usable(rows: seq<Dict>): (ok: seq<bool>)
    ensures |ok| == |rows|
  {
    if rows == [] then [] else Usable(rows[..|rows| - 1]) + [HasUsableEmail(rows[|rows| - 1])]
  }

  /** The seen-set key of every row. */
  function MailKeys(rows: seq<Dict>): (keys: seq<string>)
    ensures |keys| == |rows|
  {
    if rows == [] then [] else MailKeys(rows[..|rows| - 1]) + [EmailKey(rows[|rows| - 1])]
  }

  lemma {:induction false} RowFacts(rows: seq<Dict>, i: int)
    requires 0 <= i < |rows|
    ensures Usable(rows)[i] == HasUsableEmail(rows[i])
    ensures MailKeys(rows)[i] == EmailKey(rows[i])
    decreases |rows|
  {
    if i < |rows| - 1 {
      RowFacts(rows[..|rows| - 1], i);
    }
  }

  /** The rows kept: usable, and first with their lower-cased address. */
  function KeptRows(rows: seq<Dict>): (idx: seq<nat>)
    ensures forall a :: 0 <= a < |idx| ==> idx[a] < |rows|
  {
    Kept(Usable(rows), MailKeys(rows), |rows|)
  }

  /** Reference definition: the context of every kept row, in row order. */
  function Recipients(rows: seq<Dict>): (r: seq<Dict>)
    ensures |r| == |KeptRows(rows)| && |r| <= |rows|
  {
    Gather(rows, KeptRows(rows), BuildContext)
  }

  /** `load_recipients` over rows already read from the sheet: the `seen`
      loop with the usable-address filter, the lower-cased address as key,
      and `build_context` for every row kept. */
  method LoadRecipients(rows: seq<Dict>) returns (recipients: seq<Dict>)
    ensures recipients == Recipients(rows)
  {
    forall i | 0 <= i < |rows|
      ensures Usable(rows)[i] == HasUsableEmail(rows[i]) && MailKeys(rows)[i] == EmailKey(rows[i])
    {
      RowFacts(rows, i);
    }
    recipients := KeepFirst(rows, HasUsableEmail, EmailKey, BuildContext, Usable(rows), MailKeys(rows));
  }

  /** `load_recipients(path)`: the rows of the first worksheet, read in
      full, then filtered. An unreadable cell anywhere in the sheet makes
      the whole load fail. */
  method LoadFromSheet(sheetData: Option<seq<seq<Cell>>>, shared: seq<string>) returns (r: Result<seq<Dict>, SheetError>)
    ensures sheetData.Some? ==>
      (r.Failure? <==> exists i, k :: 0 <= i < |sheetData.value| && 0 <= k < |sheetData.value[i]| && Unreadable(sheetData.value[i][k], shared))
    ensures r.Success? ==> SheetRows(sheetData, shared).Success? && r.value == Recipients(SheetRows(sheetData, shared).value)
    ensures sheetData.None? ==> r == Success([])
  {
    if sheetData.Some? {
      SheetRowsFailure(sheetData.value, shared);
    }
    var rows :- SheetRows(sheetData, shared);
    var recipients := LoadRecipients(rows);
    return Success(recipients);
  }

  /** The address of recipient `a` is that of the row it was built from. */
  lemma RecipientEmail(rows: seq<Dict>, a: int)
    requires 0 <= a < |Recipients(rows)|
    ensures KeptRows(rows)[a] < |rows|
    ensures Get(Recipients(rows)[a], "email") == Some(Email(rows[KeptRows(rows)[a]]))
    ensures Usable(rows)[KeptRows(rows)[a]]
  {
    var i := KeptRows(rows)[a];
    KeptSpec(Usable(rows), MailKeys(rows), |rows|);
    assert IsFirst(Usable(rows), MailKeys(rows), i);
    assert Recipients(rows)[a] == BuildContext(rows[i]);
    BuildContextEmail(rows[i]);
  }

  /** Every recipient has a usable address. */
  lemma RecipientsUsable(rows: seq<Dict>, a: int)
    requires 0 <= a < |Recipients(rows)|
    ensures exists e :: Get(Recipients(rows)[a], "email") == Some(e) && e != "" && '@' in e
  {
    RecipientEmail(rows, a);
    RowFacts(rows, KeptRows(rows)[a]);
  }

  /** No two recipients share an address, ignoring case. */
  lemma RecipientsDistinct(rows: seq<Dict>, a: int, b: int)
    requires 0 <= a < b < |Recipients(rows)|
    ensures Lower(Get(Recipients(rows)[a], "email").GetOr("")) != Lower(Get(Recipients(rows)[b], "email").GetOr(""))
  {
    var idx := KeptRows(rows);
    KeptDistinct(Usable(rows), MailKeys(rows), |rows|, a, b);
    RecipientEmail(rows, a);
    RecipientEmail(rows, b);
    RowFacts(rows, idx[a]);
    RowFacts(rows, idx[b]);
  }

  /** Every usable row is represented by a recipient with the same address,
      ignoring case. */
  lemma RecipientsCover(rows: seq<Dict>, i: int)
    requires 0 <= i < |rows| && HasUsableEmail(rows[i])
    ensures exists a :: 0 <= a < |Recipients(rows)| && Lower(Get(Recipients(rows)[a], "email").GetOr("")) == EmailKey(rows[i])
  {
    var idx := KeptRows(rows);
    RowFacts(rows, i);
    KeptCovers(Usable(rows), MailKeys(rows), |rows|, i);
    var a :| 0 <= a < |idx| && MailKeys(rows)[idx[a]] == MailKeys(rows)[i];
    RecipientEmail(rows, a);
    RowFacts(rows, idx[a]);
    assert Lower(Get(Recipients(rows)[a], "email").GetOr("")) == EmailKey(rows[i]);
  }
}
