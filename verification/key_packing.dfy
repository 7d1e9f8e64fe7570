/** How the select benchmarks lay out a (hash, length) key in the database
    and how their lookups decode and recognise it:

    - the blob layout (`SQLiteSelectBlobBenchmark.cs`): 32 hash bytes and the
      8 little-endian bytes of the length in one 40-byte blob;
    - the integer-prefix layout (`SQLiteSelectBlobIntBenchmark.cs`): the first
      8 hash bytes as an `Int64` column, the other 24 and the length in a
      32-byte blob;
    - the string layout (`SQLiteSelectHashIntColumnBenchmark.cs`): a
      32-character alphanumeric hash whose first 8 characters become an
      `Int64` column and whose tail is stored as text.

    The database is reduced to the rows a query returns, in the order it
    returns them. */
module KeyPacking {
  import opened Wrappers
  import opened Ints
  import opened Text
  import BenchStats

  /** Why a lookup throws. */
  datatype LookupError = NotFound(entry: int) | WrongRow(expected: int, read: int)

  // ---------------------------------------------------------------------
  // Blob layout

  /** `PackEntry(length, hash, entry)` on arrays: bytes 0..32 of the hash,
      then the length, into the first 40 bytes of `entry`. */
  function PackEntry(length: int, hash: seq<Byte>, entry: seq<Byte>): (r: seq<Byte>)
    requires IsInt64(length) && |hash| >= 32 && |entry| >= 40
    ensures |r| == |entry|
    ensures r[..32] == hash[..32] && r[32..40] == Int64ToLE(length)
    ensures forall i :: 40 <= i < |r| ==> r[i] == entry[i]
  {
    hash[..32] + Int64ToLE(length) + entry[40..]
  }

  /** `BitConverter.ToInt64(entry[32..40], 0)`. */
  function DecodeLength(entry: seq<Byte>): int
    requires |entry| >= 40
  {
    LEToInt64(entry[32..40])
  }

  /** The length decodes to what was packed. */
  lemma PackedLengthRoundTrip(length: int, hash: seq<Byte>, entry: seq<Byte>)
    requires IsInt64(length) && |hash| >= 32 && |entry| >= 40
    ensures DecodeLength(PackEntry(length, hash, entry)) == length
  {
    Int64RoundTrip(length);
  }

  /** Two entries pack to the same key exactly when their lengths and first
      32 hash bytes agree; the other 8 of the 40 random bytes the setup draws
      never reach the key. Reusing the buffer does not matter either. */
  lemma PackedKeyDetermines(l1: int, h1: seq<Byte>, l2: int, h2: seq<Byte>, e1: seq<Byte>, e2: seq<Byte>)
    requires IsInt64(l1) && IsInt64(l2) && |h1| >= 32 && |h2| >= 32
    requires |e1| == 40 && |e2| == 40
    ensures PackEntry(l1, h1, e1) == PackEntry(l2, h2, e2) <==> l1 == l2 && h1[..32] == h2[..32]
  {
    var k1, k2 := PackEntry(l1, h1, e1), PackEntry(l2, h2, e2);
    if k1 == k2 {
      assert k1[..32] == k2[..32];
      assert k1[32..40] == k2[32..40];
      Int64ToLEInjective(l1, l2);
    }
  }

  /** `PrettyPrintEntry`: the first 32 bytes in upper-case hex, a space, and
      the decoded length. */
  function PrettyPrintEntry(entry: seq<Byte>): (s: String)
    requires |entry| >= 40
    ensures |s| >= 66 && s[64] == ' '
    ensures forall i :: 0 <= i < 64 ==> IsHexDigit(s[i])
  {
    HexOf(entry[..32]) + " " + Decimal(DecodeLength(entry))
  }

  /** The printout of a packed key shows the hash bytes and the length it
      was packed with. */
  lemma PrettyPrintShowsKey(length: int, hash: seq<Byte>, entry: seq<Byte>)
    requires IsInt64(length) && |hash| >= 32 && |entry| >= 40
    ensures var s := PrettyPrintEntry(PackEntry(length, hash, entry));
      UnHex(s[..64]) == hash[..32] && s[65..] == Decimal(length)
  {
    var k := PackEntry(length, hash, entry);
    var s := PrettyPrintEntry(k);
    PackedLengthRoundTrip(length, hash, entry);
    assert s[..64] == HexOf(hash[..32]);
    UnHexOf(hash[..32]);
    assert s[65..] == Decimal(length);
  }

  /** An inserted row: its id and key. */
  datatype Row = Row(id: int, key: seq<Byte>)

  /** `ExecuteScalarInt64` on the key query: the id of the first row with
      that key, or -1 when there is none. */
  function ScalarLookup(rows: seq<Row>, key: seq<Byte>): (id: int)
    ensures id == -1 <==> forall k :: 0 <= k < |rows| ==> rows[k].key != key
    ensures id != -1 ==> exists k :: 0 <= k < |rows| && rows[k] == Row(id, key)
    requires forall k :: 0 <= k < |rows| ==> rows[k].id >= 0
  {
    if rows == [] then -1
    else if rows[0].key == key then rows[0].id
    else ScalarLookup(rows[1..], key)
  }

  /** A drawn entry: the length and the 40 random bytes. */
  datatype Drawn = Drawn(length: int, hash: seq<Byte>)

  /** Every entry has an `Int64` length and 40 drawn bytes. */
  predicate AllValid(entries: seq<Drawn>) {
    forall i :: 0 <= i < |entries| ==> IsInt64(entries[i].length) && |entries[i].hash| == 40
  }

  /** The rows the setup inserts: entry `i` under id `i`. */
  function InsertedRows(entries: seq<Drawn>, buffer: seq<Byte>): (rows: seq<Row>)
    requires |buffer| == 40
    requires AllValid(entries)
    ensures |rows| == |entries|
    ensures forall i :: 0 <= i < |rows| ==> rows[i] == Row(i, PackEntry(entries[i].length, entries[i].hash, buffer))
  {
    seq(|entries|, i requires 0 <= i < |entries| => Row(i, PackEntry(entries[i].length, entries[i].hash, buffer)))
  }

  /** `SelectBenchmark`: each selected entry is packed again and looked up;
      an id below 0 throws. */
  function SelectBlob(rows: seq<Row>, selected: seq<Drawn>, buffer: seq<Byte>): (r: Result<(), LookupError>)
    requires |buffer| == 40
    requires forall k :: 0 <= k < |rows| ==> rows[k].id >= 0
    requires AllValid(selected)
    ensures r.Ok? <==> forall i :: 0 <= i < |selected| ==>
      ScalarLookup(rows, PackEntry(selected[i].length, selected[i].hash, buffer)) >= 0
  {
    if selected == [] then Ok(())
    else
      var e := selected[0];
      var id := ScalarLookup(rows, PackEntry(e.length, e.hash, buffer));
      if id < 0 then Err(NotFound(id))
      else
        var r := SelectBlob(rows, selected[1..], buffer);
        assert forall i :: 1 <= i < |selected| ==> selected[i] == selected[1..][i - 1];
        r
  }

  /** Selecting any of the inserted entries never throws: the lookup packs
      the same key the insert did. */
  lemma SelectBlobFindsInserted(entries: seq<Drawn>, selected: seq<Drawn>, b1: seq<Byte>, b2: seq<Byte>)
    requires |b1| == 40 && |b2| == 40
    requires AllValid(entries)
    requires forall i :: 0 <= i < |selected| ==> selected[i] in entries
    ensures AllValid(selected)
    ensures SelectBlob(InsertedRows(entries, b1), selected, b2).Ok?
  {
    var rows := InsertedRows(entries, b1);
    forall i | 0 <= i < |selected|
      ensures IsInt64(selected[i].length) && |selected[i].hash| == 40
      ensures ScalarLookup(rows, PackEntry(selected[i].length, selected[i].hash, b2)) >= 0
    {
      var e := selected[i];
      var j :| 0 <= j < |entries| && entries[j] == e;
      PackedKeyDetermines(e.length, e.hash, e.length, e.hash, b1, b2);
      assert rows[j].key == PackEntry(e.length, e.hash, b2);
    }
  }

  // ---------------------------------------------------------------------
  // Integer-prefix layout

  /** `BitConverter.ToInt64(hash, 0)`: the first 8 hash bytes. */
  function FirstHash(hash: seq<Byte>): (h: int)
    requires |hash| >= 8
    ensures IsInt64(h)
  {
    LEToInt64(hash[..8])
  }

  /** The 32-byte blob: hash bytes 8..32, then the length. */
  function BlobIntBuffer(length: int, hash: seq<Byte>): (b: seq<Byte>)
    requires IsInt64(length) && |hash| >= 32
    ensures |b| == 32 && b[..24] == hash[8..32] && b[24..] == Int64ToLE(length)
  {
    hash[8..32] + Int64ToLE(length)
  }

  /** The integer column and the blob together hold the whole key: the hash
      and the length can be read back from them. */
  lemma BlobIntKeyRoundTrip(length: int, hash: seq<Byte>)
    requires IsInt64(length) && |hash| == 32
    ensures Int64ToLE(FirstHash(hash)) + BlobIntBuffer(length, hash)[..24] == hash
    ensures LEToInt64(BlobIntBuffer(length, hash)[24..]) == length
  {
    Int64BytesRoundTrip(hash[..8]);
    assert hash[..8] + hash[8..32] == hash;
    Int64RoundTrip(length);
  }

  /** Hence two keys agree in both columns exactly when hash and length
      agree. */
  lemma BlobIntKeyInjective(l1: int, h1: seq<Byte>, l2: int, h2: seq<Byte>)
    requires IsInt64(l1) && IsInt64(l2) && |h1| == 32 && |h2| == 32
    ensures (FirstHash(h1) == FirstHash(h2) && BlobIntBuffer(l1, h1) == BlobIntBuffer(l2, h2))
      <==> (l1 == l2 && h1 == h2)
  {
    BlobIntKeyRoundTrip(l1, h1);
    BlobIntKeyRoundTrip(l2, h2);
  }

  /** A row the first-hash query returns: the id and the blob. */
  datatype IntRow = IntRow(id: int, blob: seq<Byte>)

  predicate WellFormedRows(rows: seq<IntRow>) {
    forall k :: 0 <= k < |rows| ==> |rows[k].blob| == 32
  }

  /** The loop `matches &= buffer[i] == hash[i + 8]` over `i < 24`. */
  predicate TailMatches(blob: seq<Byte>, hash: seq<Byte>)
    requires |blob| == 32 && |hash| == 32
  {
    forall i :: 0 <= i < 24 ==> blob[i] == hash[i + 8]
  }

  /** The match test of `SelectBenchmark` as written: the tail bytes are
      compared only when the lengths DIFFER, so a row with the entry's length
      matches whatever its bytes, and a row with the entry's tail matches
      whatever its length. */
  predicate MatchesAsWritten(blob: seq<Byte>, length: int, hash: seq<Byte>)
    requires |blob| == 32 && |hash| == 32
  {
    var readLength := LEToInt64(blob[24..]);
    readLength == length || TailMatches(blob, hash)
  }

  /** The test the code evidently means, and the one the P/Invoke variant
      of the benchmark performs: same length and same tail. */
  predicate MatchesCorrected(blob: seq<Byte>, length: int, hash: seq<Byte>)
    requires |blob| == 32 && |hash| == 32
  {
    var readLength := LEToInt64(blob[24..]);
    readLength == length && TailMatches(blob, hash)
  }

  /** The corrected test recognises exactly the entry's own blob. */
  lemma MatchesCorrectedIff(blob: seq<Byte>, length: int, hash: seq<Byte>)
    requires |blob| == 32 && |hash| == 32 && IsInt64(length)
    ensures MatchesCorrected(blob, length, hash) <==> blob == BlobIntBuffer(length, hash)
  {
    var b := BlobIntBuffer(length, hash);
    if MatchesCorrected(blob, length, hash) {
      assert blob[..24] == hash[8..32];
      Int64BytesRoundTrip(blob[24..]);
      assert blob == blob[..24] + blob[24..];
    }
    if blob == b {
      Int64RoundTrip(length);
    }
  }

  /** As written, every blob carrying the entry's length matches, whatever
      its hash tail. */
  lemma MatchesAsWrittenAnyTail(length: int, hash: seq<Byte>, other: seq<Byte>)
    requires IsInt64(length) && |hash| == 32 && |other| == 32
    ensures MatchesAsWritten(BlobIntBuffer(length, other), length, hash)
  {
    Int64RoundTrip(length);
  }

  /** Reading rows until one matches: whether one did, and the id read
      last. */
  datatype Scan = Scan(found: bool, readId: int)

  function ScanRows(rows: seq<IntRow>, length: int, hash: seq<Byte>, corrected: bool, readId: int): (s: Scan)
    requires WellFormedRows(rows) && |hash| == 32
    ensures s.found <==> exists k :: 0 <= k < |rows| && RowMatches(rows[k], length, hash, corrected)
    ensures s.found ==> exists k :: FirstMatchAt(rows, k, s.readId, length, hash, corrected)
  {
    if rows == [] then Scan(false, readId)
    else if RowMatches(rows[0], length, hash, corrected) then
      assert FirstMatchAt(rows, 0, rows[0].id, length, hash, corrected);
      Scan(true, rows[0].id)
    else
      var s := ScanRows(rows[1..], length, hash, corrected, rows[0].id);
      assert forall k :: 1 <= k < |rows| ==> rows[k] == rows[1..][k - 1];
      assert s.found ==> exists k :: FirstMatchAt(rows, k, s.readId, length, hash, corrected) by {
        if s.found {
          var k :| FirstMatchAt(rows[1..], k, s.readId, length, hash, corrected);
          assert FirstMatchAt(rows, k + 1, s.readId, length, hash, corrected);
        }
      }
      s
  }

  predicate RowMatches(row: IntRow, length: int, hash: seq<Byte>, corrected: bool)
    requires |row.blob| == 32 && |hash| == 32
  {
    if corrected then MatchesCorrected(row.blob, length, hash) else MatchesAsWritten(row.blob, length, hash)
  }

  /** Row `k` is the first row that matches, and its id is `id`. */
  predicate FirstMatchAt(rows: seq<IntRow>, k: int, id: int, length: int, hash: seq<Byte>, corrected: bool)
    requires WellFormedRows(rows) && |hash| == 32
  {
    && 0 <= k < |rows| && rows[k].id == id
    && RowMatches(rows[k], length, hash, corrected)
    && forall j :: 0 <= j < k ==> !RowMatches(rows[j], length, hash, corrected)
  }

  /** One lookup of `SelectBenchmark`: scan the rows the first-hash query
      returns; throw unless a row matched and it is the entry's row. */
  function LookupBlobInt(rows: seq<IntRow>, id: int, length: int, hash: seq<Byte>, corrected: bool): (r: Result<int, LookupError>)
    requires WellFormedRows(rows) && |hash| == 32
    ensures r.Ok? ==> r.value == id
    ensures r.Ok? <==> exists k :: FirstMatchAt(rows, k, id, length, hash, corrected)
  {
    var s := ScanRows(rows, length, hash, corrected, -1);
    if !s.found then Err(NotFound(id))
    else if s.readId != id then Err(WrongRow(id, s.readId))
    else Ok(id)
  }

  /** With the corrected test, a lookup succeeds whenever the entry's row is
      among the rows returned and no other row carries the same key. */
  lemma LookupCorrectedFinds(rows: seq<IntRow>, id: int, length: int, hash: seq<Byte>)
    requires WellFormedRows(rows) && |hash| == 32 && IsInt64(length)
    requires IntRow(id, BlobIntBuffer(length, hash)) in rows
    requires forall k :: 0 <= k < |rows| && rows[k].blob == BlobIntBuffer(length, hash) ==> rows[k].id == id
    ensures LookupBlobInt(rows, id, length, hash, true) == Ok(id)
  {
    var s := ScanRows(rows, length, hash, true, -1);
    var k :| 0 <= k < |rows| && rows[k] == IntRow(id, BlobIntBuffer(length, hash));
    MatchesCorrectedIff(rows[k].blob, length, hash);
    var m :| 0 <= m < |rows| && rows[m].id == s.readId && RowMatches(rows[m], length, hash, true);
    MatchesCorrectedIff(rows[m].blob, length, hash);
  }

  /** Two entries whose hashes share the first 8 bytes and whose lengths
      agree: the query for the second returns both rows, the first row comes
      back first, and the lookup as written accepts it and throws; the
      corrected lookup finds the second row. */
  lemma LookupAsWrittenRejectsPresentRow()
    ensures var h1 := seq(32, _ => 0);
      var h2 := seq(31, _ => 0) + [1];
      var rows := [IntRow(0, BlobIntBuffer(0, h1)), IntRow(1, BlobIntBuffer(0, h2))];
      && FirstHash(h1) == FirstHash(h2)
      && LookupBlobInt(rows, 1, 0, h2, false) == Err(WrongRow(1, 0))
      && LookupBlobInt(rows, 1, 0, h2, true) == Ok(1)
  {
    var h1: seq<Byte> := seq(32, _ => 0);
    var h2: seq<Byte> := seq(31, _ => 0) + [1];
    assert h1[..8] == h2[..8];
    var rows := [IntRow(0, BlobIntBuffer(0, h1)), IntRow(1, BlobIntBuffer(0, h2))];
    MatchesAsWrittenAnyTail(0, h2, h1);
    assert rows[0].blob[23] == 0 && h2[31] == 1;
    assert !TailMatches(rows[0].blob, h2);
    assert !MatchesCorrected(rows[0].blob, 0, h2);
    LookupCorrectedFinds(rows, 1, 0, h2);
  }

  // ---------------------------------------------------------------------
  // String layout

  /** The 32-character hash the setup draws from 32 random bytes: character
      `j` is the alphabet's character at `bytes[j] % 62`. */
  function HashString(bytes: seq<Byte>): (s: String)
    requires |bytes| == 32
    ensures |s| == 32
    ensures forall i :: 0 <= i < 32 ==> IsLetterOrDigit(s[i]) && BenchStats.AlphabetIndex(s[i]) == bytes[i] % 62
  {
    BenchStats.RandomHashString(seq(32, i requires 0 <= i < 32 => bytes[i] as nat), 32)
  }

  predicate IsAscii(s: String) {
    forall i :: 0 <= i < |s| ==> (s[i] as int) < 128
  }

  /** `Encoding.UTF8.GetBytes` on ASCII text: one byte per character. */
  function Utf8(s: String): (bs: seq<Byte>)
    requires IsAscii(s)
    ensures |bs| == |s|
  {
    seq(|s|, i requires 0 <= i < |s| => s[i] as int)
  }

  /** The characters of ASCII bytes. */
  function AsciiChars(bs: seq<Byte>): String {
    seq(|bs|, i requires 0 <= i < |bs| => (bs[i] as char))
  }

  /** The integer column: the first 8 UTF-8 bytes read as an `Int64`. */
  function HashInt(s: String): int
    requires IsAscii(s) && |s| >= 8
  {
    LEToInt64(Utf8(s)[..8])
  }

  /** The text column: characters 8 onward. */
  function HashRest(s: String): String
    requires |s| >= 8
  {
    s[8..]
  }

  /** The two columns reconstruct the hash. */
  lemma SplitKeyRoundTrip(s: String)
    requires IsAscii(s) && |s| >= 8
    ensures AsciiChars(Int64ToLE(HashInt(s))) + HashRest(s) == s
  {
    Int64BytesRoundTrip(Utf8(s)[..8]);
    assert AsciiChars(Utf8(s)[..8]) == s[..8];
    assert s[..8] + s[8..] == s;
  }

  /** Hence equal columns mean equal hashes. */
  lemma SplitKeyInjective(a: String, b: String)
    requires IsAscii(a) && |a| >= 8 && IsAscii(b) && |b| >= 8
    ensures (HashInt(a) == HashInt(b) && HashRest(a) == HashRest(b)) <==> a == b
  {
    SplitKeyRoundTrip(a);
    SplitKeyRoundTrip(b);
  }

  /** The generated hashes are ASCII, so the split applies to them. */
  lemma HashStringAscii(bytes: seq<Byte>)
    requires |bytes| == 32
    ensures IsAscii(HashString(bytes))
  {
  }

  /** A row the integer-column query returns. */
  datatype TextRow = TextRow(id: int, length: int, rest: String)

  predicate TextRowMatches(row: TextRow, length: int, fullhash: String)
    requires |fullhash| >= 8
  {
    row.length == length && row.rest == fullhash[8..]
  }

  /** Row `k` is the first row that matches, and its id is `id`. */
  predicate FirstTextMatchAt(rows: seq<TextRow>, k: int, id: int, length: int, fullhash: String)
    requires |fullhash| >= 8
  {
    && 0 <= k < |rows| && rows[k].id == id
    && TextRowMatches(rows[k], length, fullhash)
    && forall j :: 0 <= j < k ==> !TextRowMatches(rows[j], length, fullhash)
  }

  /** `SelectHashOnlyIntBenchmark`, one entry: the id of the first row whose
      length and text column match; none throws. */
  function LookupHashInt(rows: seq<TextRow>, length: int, fullhash: String): (r: Result<int, LookupError>)
    requires |fullhash| >= 8
    ensures r.Ok? <==> exists k :: 0 <= k < |rows| && TextRowMatches(rows[k], length, fullhash)
    ensures r.Ok? ==> exists k :: FirstTextMatchAt(rows, k, r.value, length, fullhash)
  {
    if rows == [] then Err(NotFound(length))
    else if TextRowMatches(rows[0], length, fullhash) then
      assert FirstTextMatchAt(rows, 0, rows[0].id, length, fullhash);
      Ok(rows[0].id)
    else
      var r := LookupHashInt(rows[1..], length, fullhash);
      assert forall k :: 1 <= k < |rows| ==> rows[k] == rows[1..][k - 1];
      assert r.Ok? ==> exists k :: FirstTextMatchAt(rows, k, r.value, length, fullhash) by {
        if r.Ok? {
          var k :| FirstTextMatchAt(rows[1..], k, r.value, length, fullhash);
          assert FirstTextMatchAt(rows, k + 1, r.value, length, fullhash);
        }
      }
      r
  }

  /** The entry's own row, inserted with its length and `HashRest`, is
      always found. */
  lemma LookupHashIntFindsInserted(rows: seq<TextRow>, id: int, length: int, fullhash: String)
    requires |fullhash| >= 8
    requires TextRow(id, length, HashRest(fullhash)) in rows
    ensures LookupHashInt(rows, length, fullhash).Ok?
  {
    var k :| 0 <= k < |rows| && rows[k] == TextRow(id, length, HashRest(fullhash));
    assert TextRowMatches(rows[k], length, fullhash);
  }
}
