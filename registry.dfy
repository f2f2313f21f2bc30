/**
 * Building the screenshot-id registry (nxshot.py `loadKey`, lines 53-65,
 * and `updateGameIDs`, lines 68-118): each catalog row's title id is turned
 * into the AES input block, enciphered, and rendered as the 32-character
 * upper-case id that capture file names carry; the game name, with its
 * region, is stored under that id.
 *
 * AES-128 in ECB mode and MD5 are not modelled: they are parameters, `aes`
 * (a key to a one-block cipher) and `md5Hex` (bytes to a hex digest).
 */
module Registry {
  import opened Optional
  import opened Hex

  /** The fingerprint of the expected key (nxshot.py line 13). */
  const KEY_HASH := "24e0dc62a15c11d38b622162ea2b4383"

  /** One AES block. */
  type Block = b: seq<byte> | |b| == 16 witness [0, 0, 0, 0, 0, 0, 0, 0, 0, 0, 0, 0, 0, 0, 0, 0]

  /** Python's `needle in haystack` on strings. */
  predicate IsSubstring(needle: string, haystack: string)
    decreases |haystack|
  {
    && |needle| <= |haystack|
    && (needle == haystack[..|needle|] || (|haystack| > 0 && IsSubstring(needle, haystack[1..])))
  }

  /** A digest as long as the fingerprint passes the substring test only by being equal to it. */
  lemma SameLengthSubstring(needle: string, haystack: string)
    requires |needle| == |haystack|
    ensures IsSubstring(needle, haystack) <==> needle == haystack
  {
    if |haystack| > 0 {
      assert !IsSubstring(needle, haystack[1..]);
    }
  }

  /** `keyfile.read(32)`: the first 32 characters, or all of a shorter file. */
  function KeyText(text: string): (r: string)
    ensures |r| == (if |text| <= 32 then |text| else 32) && r == text[..|r|]
  {
    if |text| <= 32 then text else text[..32]
  }

  datatype KeyLoad = KeyNotFound | KeyMismatch | KeyLoaded(key: seq<byte>)

  /**
   * `loadKey`: the first 32 characters of the key file, hex-decoded, must
   * have a digest that occurs in KEY_HASH. A file that is not hex is
   * reported as a mismatch, as Python's `ValueError` is.
   */
  function LoadKey(keyFile: Option<string>, md5Hex: seq<byte> -> string): (r: KeyLoad)
    ensures r.KeyNotFound? <==> keyFile.None?
    ensures keyFile.Some? ==> var k := Decode(KeyText(keyFile.value));
      && (r.KeyLoaded? <==> k.Some? && IsSubstring(md5Hex(k.value), KEY_HASH))
      && (r.KeyLoaded? ==> k == Some(r.key))
    ensures r.KeyLoaded? ==> |r.key| <= 16 && IsSubstring(md5Hex(r.key), KEY_HASH)
    ensures r.KeyLoaded? ==> 2 * |r.key| <= |keyFile.value| && Decode(keyFile.value[..2 * |r.key|]) == Some(r.key)
    ensures r.KeyLoaded? && |keyFile.value| >= 32 ==> |r.key| == 16
  {
    match keyFile
    case None => KeyNotFound
    case Some(text) =>
      var keystring := KeyText(text);
      match Decode(keystring)
      case None => KeyMismatch
      case Some(key) =>
        if !IsSubstring(md5Hex(key), KEY_HASH) then KeyMismatch
        else
          assert keystring == text[..2 * |key|];
          KeyLoaded(key)
  }

  /** With a 32-character digest, as MD5's always is, the key passes exactly when its digest is the fingerprint. */
  lemma LoadKeyChecksFingerprint(keyFile: Option<string>, md5Hex: seq<byte> -> string)
    requires keyFile.Some?
    requires var k := Decode(KeyText(keyFile.value));
      k.Some? && |md5Hex(k.value)| == 32
    ensures LoadKey(keyFile, md5Hex).KeyLoaded?
        <==> md5Hex(Decode(KeyText(keyFile.value)).value) == KEY_HASH
  {
    var k := Decode(KeyText(keyFile.value));
    SameLengthSubstring(md5Hex(k.value), KEY_HASH);
  }

  /** `if not key: return -1`: a missing, mismatched or empty key stops the update. */
  predicate KeyUsable(k: KeyLoad) {
    k.KeyLoaded? && |k.key| > 0
  }

  function Reverse<T>(s: seq<T>): (r: seq<T>)
    ensures |r| == |s| && forall i :: 0 <= i < |s| ==> r[i] == s[|s| - 1 - i]
  {
    if s == [] then [] else Reverse(s[1..]) + [s[0]]
  }

  /** `s.ljust(width, fill)`. */
  function LJust(s: string, width: nat, fill: char): (r: string)
    ensures |r| == (if |s| >= width then |s| else width)
    ensures r[..|s|] == s && forall i :: |s| <= i < |r| ==> r[i] == fill
  {
    if |s| >= width then s else s + Repeat(fill, width - |s|)
  }

  function Zeros(n: nat): seq<byte> {
    Repeat(0, n)
  }

  /** Hex digits followed by `0` pairs decode to the bytes followed by zero bytes. */
  lemma HexThenZeros(rev: seq<byte>, n: nat)
    ensures Decode(Encode(rev, false) + Repeat('0', 2 * n)) == Some(rev + Zeros(n))
  {
    DecodeEncode(rev, false);
    DecodeZeros(n);
    DecodeAppend(Encode(rev, false), Repeat('0', 2 * n));
  }

  /** The hex round trip of lines 105-107 pads the reversed bytes with `n` zero bytes. */
  lemma PaddedHexDecodes(rev: seq<byte>, n: nat)
    requires |rev| <= 8 && n == 16 - |rev|
    ensures Decode(LJust(Encode(rev, false), 32, '0')) == Some(rev + Zeros(n))
  {
    assert 32 - |Encode(rev, false)| == 2 * n;
    HexThenZeros(rev, n);
  }

  /**
   * The AES input block for a decoded title id, as lines 104-107 compute it:
   * `titleidb[7::-1]`, rendered as hex, padded with `0` to 32 characters and
   * decoded again. Bytes 0..7 are the first eight title-id bytes in reverse
   * order (all of them when there are fewer) and the rest are zero.
   */
  function InputBlock(titleId: seq<byte>): (blk: Block)
    ensures var k := if |titleId| < 8 then |titleId| else 8;
      forall i :: 0 <= i < 16 ==> blk[i] == if i < k then titleId[k - 1 - i] else 0
  {
    var rev := Reverse(if |titleId| < 8 then titleId else titleId[..8]);
    var conversion := LJust(Encode(rev, false), 32, '0');
    PaddedHexDecodes(rev, 16 - |rev|);
    Decode(conversion).value
  }

  /**
   * `cipher.encrypt(...).hex().upper()` for a title id given as hex text;
   * None where `bytes.fromhex` would raise.
   */
  function ScreenshotId(titleId: string, encrypt: Block -> Block): (r: Option<string>)
    ensures r.None? <==> Decode(titleId).None?
    ensures r.Some? ==> |r.value| == 32 && forall i :: 0 <= i < 32 ==> IsUpperHexDigit(r.value[i])
    ensures r.Some? ==> var c: seq<byte> := encrypt(InputBlock(Decode(titleId).value)); Decode(r.value) == Some(c)
  {
    match Decode(titleId)
    case None => None
    case Some(b) =>
      var encrypted := encrypt(InputBlock(b));
      DecodeEncode(encrypted, true);
      Some(Encode(encrypted, true))
  }

  function CountOf(s: string, c: char): nat {
    if s == [] then 0 else (if s[0] == c then 1 else 0) + CountOf(s[1..], c)
  }

  /** `gamename.replace(":", " -")`. */
  function Sanitize(name: string): (r: string)
    ensures ':' !in r
    ensures ':' !in name ==> r == name
    ensures |r| == |name| + CountOf(name, ':')
  {
    if name == [] then []
    else (if name[0] == ':' then " -" else [name[0]]) + Sanitize(name[1..])
  }

  /** Sanitising works character by character. */
  lemma {:induction false} SanitizeAppend(a: string, b: string)
    ensures Sanitize(a + b) == Sanitize(a) + Sanitize(b)
    decreases |a|
  {
    if a == [] {
      assert a + b == b;
    } else {
      assert (a + b)[0] == a[0] && (a + b)[1..] == a[1..] + b;
      SanitizeAppend(a[1..], b);
    }
  }

  /** A `:` becomes ` -`; any other character stays. */
  lemma SanitizeChar(c: char)
    ensures Sanitize([c]) == if c == ':' then " -" else [c]
  {
    assert [c][1..] == [];
  }

  /** The stored name: `gamename + ' (' + region + ')'`, after the colon replacement. */
  function DisplayName(name: string, region: string): (r: string)
    ensures |r| >= |region| + 3 && ':' !in r[..|r| - |region| - 3]
    ensures r[|r| - |region| - 3..] == " (" + region + ")"
  {
    var r := Sanitize(name) + " (" + region + ")";
    assert r[..|r| - |region| - 3] == Sanitize(name);
    r
  }

  /** A scraped table row: the title id, name and region cells, each missing when its cell is empty. */
  datatype Row = Row(titleId: Option<string>, name: Option<string>, region: Option<string>)

  /** Rows with an empty cell raise `IndexError` and are skipped (lines 91-96). */
  predicate Complete(row: Row) {
    row.titleId.Some? && row.name.Some? && row.region.Some?
  }

  /** A complete row whose title id `bytes.fromhex` rejects: the exception ends the update. */
  predicate Malformed(row: Row) {
    Complete(row) && Decode(row.titleId.value).None?
  }

  /** The id a row is stored under, if it is stored. */
  function RowKey(row: Row, encrypt: Block -> Block): (r: Option<string>)
    ensures r.Some? <==> Complete(row) && !Malformed(row)
  {
    if Complete(row) then ScreenshotId(row.titleId.value, encrypt) else None
  }

  /** One row of the loop (lines 98-112): stored under its id when it has one, skipped otherwise. */
  function AddRow(m: map<string, string>, row: Row, encrypt: Block -> Block): (r: map<string, string>)
    requires !Malformed(row)
  {
    match RowKey(row, encrypt)
    case None => m
    case Some(id) => m[id := DisplayName(row.name.value, row.region.value)]
  }

  /** The registry after inserting `rows` one by one into `m` (line 112); later rows overwrite. */
  function Insert(m: map<string, string>, rows: seq<Row>, encrypt: Block -> Block): (r: map<string, string>)
    requires forall i :: 0 <= i < |rows| ==> !Malformed(rows[i])
    decreases |rows|
  {
    if rows == [] then m
    else AddRow(Insert(m, rows[..|rows| - 1], encrypt), rows[|rows| - 1], encrypt)
  }

  /** The position of the last element of `xs` that satisfies `p`, if any. */
  function LastMatch<T>(xs: seq<T>, p: T -> bool): (r: Option<nat>)
    ensures r.Some? ==> r.value < |xs| && p(xs[r.value])
    ensures r.Some? ==> forall j :: r.value < j < |xs| ==> !p(xs[j])
    ensures r.None? ==> forall j :: 0 <= j < |xs| ==> !p(xs[j])
    decreases |xs|
  {
    if xs == [] then None
    else if p(xs[|xs| - 1]) then Some(|xs| - 1)
    else
      var init := xs[..|xs| - 1];
      assert forall j :: 0 <= j < |init| ==> init[j] == xs[j];
      LastMatch(init, p)
  }

  /** Whether a row is stored under `id`. */
  function StoredUnder(id: string, encrypt: Block -> Block): Row -> bool {
    row => RowKey(row, encrypt) == Some(id)
  }

  /** The last row stored under `id`, if any. */
  function LastRow(rows: seq<Row>, id: string, encrypt: Block -> Block): Option<nat> {
    LastMatch(rows, StoredUnder(id, encrypt))
  }

  /** What one row does to the entry for `id`. */
  lemma AddRowAt(m: map<string, string>, row: Row, encrypt: Block -> Block, id: string)
    requires !Malformed(row)
    ensures var r := AddRow(m, row, encrypt);
      if RowKey(row, encrypt) == Some(id) then id in r && r[id] == DisplayName(row.name.value, row.region.value)
      else (id in r <==> id in m) && (id in m ==> r[id] == m[id])
  {
  }

  /**
   * Last write wins: an id that some row is stored under holds the name of
   * the last such row; every other entry of `m` is kept, and nothing else
   * is added.
   */
  lemma {:induction false} InsertLastWriteWins(m: map<string, string>, rows: seq<Row>, encrypt: Block -> Block, id: string)
    requires forall i :: 0 <= i < |rows| ==> !Malformed(rows[i])
    ensures var r := Insert(m, rows, encrypt);
      match LastRow(rows, id, encrypt)
      case Some(i) => id in r && r[id] == DisplayName(rows[i].name.value, rows[i].region.value)
      case None => (id in r <==> id in m) && (id in m ==> r[id] == m[id])
    decreases |rows|
  {
    if rows != [] {
      var init, last := rows[..|rows| - 1], rows[|rows| - 1];
      InsertLastWriteWins(m, init, encrypt, id);
      AddRowAt(Insert(m, init, encrypt), last, encrypt, id);
      if RowKey(last, encrypt) == Some(id) {
        assert LastRow(rows, id, encrypt) == Some(|rows| - 1);
      } else {
        assert LastRow(rows, id, encrypt) == LastRow(init, id, encrypt);
      }
    }
  }

  /** Inserting one more row. */
  lemma InsertStep(m: map<string, string>, rows: seq<Row>, encrypt: Block -> Block, i: nat)
    requires i < |rows| && forall j :: 0 <= j <= i ==> !Malformed(rows[j])
    ensures Insert(m, rows[..i + 1], encrypt) == AddRow(Insert(m, rows[..i], encrypt), rows[i], encrypt)
  {
    assert rows[..i + 1][..i] == rows[..i];
  }

  /** Every id a rebuilt registry holds is 32 upper-case hex digits. */
  lemma {:induction false} InsertKeysAreScreenshotIds(rows: seq<Row>, encrypt: Block -> Block, id: string)
    requires forall i :: 0 <= i < |rows| ==> !Malformed(rows[i])
    requires id in Insert(map[], rows, encrypt)
    ensures |id| == 32 && forall i :: 0 <= i < 32 ==> IsUpperHexDigit(id[i])
  {
    InsertLastWriteWins(map[], rows, encrypt, id);
  }

  /** The position of the first malformed row, or the number of rows. */
  function FirstMalformed(rows: seq<Row>): (n: nat)
    ensures n <= |rows|
    ensures forall i :: 0 <= i < n ==> !Malformed(rows[i])
    ensures n < |rows| ==> Malformed(rows[n])
    decreases |rows|
  {
    if rows == [] then 0
    else if Malformed(rows[0]) then 0
    else 1 + FirstMalformed(rows[1..])
  }

  /** `gametabler[1:]`: the heading row is not data. */
  function DataRows(table: seq<Row>): (r: seq<Row>)
    ensures |r| == (if table == [] then 0 else |table| - 1)
    ensures forall i :: 0 <= i < |r| ==> r[i] == table[i + 1]
  {
    if table == [] then [] else table[1..]
  }

  /**
   * How `updateGameIDs` ends: 1 (Updated), -1 (KeyUnavailable or
   * FetchFailed), or the `ValueError` of a malformed title id at a data row.
   */
  datatype UpdateStatus = Updated | KeyUnavailable | FetchFailed | MalformedTitleId(row: nat)

  /**
   * The body of the row loop (lines 91-112): skip a row with an empty cell,
   * otherwise sanitise the name, decode the title id, encrypt its block and
   * store the name under the upper-case hex of the result. `malformed`
   * reports the `ValueError` of `bytes.fromhex`.
   */
  method StoreRow(m: map<string, string>, row: Row, cipher: Block -> Block)
    returns (m': map<string, string>, malformed: bool)
    ensures malformed == Malformed(row)
    ensures !malformed ==> m' == AddRow(m, row, cipher)
  {
    if !Complete(row) {
      return m, false;
    }
    var gamename := Sanitize(row.name.value);
    var titleidb := Decode(row.titleId.value);
    if titleidb.None? {
      return m, true;
    }
    var screenshotid := Encode(cipher(InputBlock(titleidb.value)), true);
    assert RowKey(row, cipher) == Some(screenshotid);
    m' := m[screenshotid := gamename + " (" + row.region.value + ")"];
    malformed := false;
  }

  /** The registry (the global `idname`), updated in place by `updateGameIDs`. */
  class GameIds {
    var idname: map<string, string>

    constructor ()
      ensures idname == map[]
    {
      idname := map[];
    }

    /**
     * The row loop of `updateGameIDs`. The key file's content (None when it
     * does not exist) and the scraped table (None when the wiki cannot be
     * reached) are inputs; so are the cipher and the digest.
     */
    method UpdateGameIds(keyFile: Option<string>, md5Hex: seq<byte> -> string,
                         table: Option<seq<Row>>, aes: seq<byte> -> (Block -> Block))
      returns (status: UpdateStatus)
      modifies this
      ensures !KeyUsable(LoadKey(keyFile, md5Hex)) ==> status == KeyUnavailable && idname == old(idname)
      ensures KeyUsable(LoadKey(keyFile, md5Hex)) && table.None? ==> status == FetchFailed && idname == old(idname)
      ensures KeyUsable(LoadKey(keyFile, md5Hex)) && table.Some? ==>
        var rows := DataRows(table.value);
        var n := FirstMalformed(rows);
        && status == (if n < |rows| then MalformedTitleId(n) else Updated)
        && idname == Insert(old(idname), rows[..n], aes(LoadKey(keyFile, md5Hex).key))
    {
      var key := LoadKey(keyFile, md5Hex);
      if !KeyUsable(key) {
        return KeyUnavailable;
      }
      if table.None? {
        return FetchFailed;
      }
      var cipher := aes(key.key);
      var rows := DataRows(table.value);
      var i := 0;
      while i < |rows|
        invariant 0 <= i <= |rows|
        invariant forall j :: 0 <= j < i ==> !Malformed(rows[j])
        invariant idname == Insert(old(idname), rows[..i], cipher)
      {
        var next, malformed := StoreRow(idname, rows[i], cipher);
        if malformed {
          return MalformedTitleId(i);
        }
        InsertStep(old(idname), rows, cipher, i);
        idname := next;
        i := i + 1;
      }
      assert rows[..i] == rows;
      status := Updated;
    }
  }
}
