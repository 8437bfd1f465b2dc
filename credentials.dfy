/** The credential file as the row loops of main.go and view.go see it,
    and what those loops compute from it. A file holds `label,value` rows:
    before the first `password` row the values are base32 TOTP secrets,
    after it they are encrypted passwords. */
module Credentials {
  import opened Numeric
  import opened Wrappers
  import Base32
  import Otp

  type Row = seq<string>

  /** The label of the row that starts the password section. */
  const Marker: string := "password"

  /** The key that selects every password row. */
  const AllKey: string := "all"

  /** Opening the CSV file: its error, or the rows `ReadLine` returns
      before its first error (end of file or otherwise). */
  datatype CsvFile = Unreadable(err: string) | Readable(rows: seq<Row>)

  /** How a command ends: the open error is returned, output is produced,
      or a decode error is written to stderr and the process exits with 1. */
  datatype Run = OpenFailed(err: string) | Output(text: string) | Exit(decodeError: Base32.DecodeError)

  predicate IsMarker(row: Row)
  {
    |row| >= 2 && row[0] == Marker
  }

  predicate HasMarker(rows: seq<Row>)
  {
    exists j :: 0 <= j < |rows| && IsMarker(rows[j])
  }

  // ---------------------------------------------------------------------
  // The TOTP listing (`TowFA`, `Gen2FAText`).

  /** The rows the listing turns into codes: every row of two or more
      fields before the first marker, in file order. */
  function SecretRows(rows: seq<Row>): (secrets: seq<Row>)
    ensures |secrets| <= |rows|
    ensures forall k :: 0 <= k < |secrets| ==> |secrets[k]| >= 2 && secrets[k][0] != Marker
  {
    if rows == [] then []
    else if |rows[0]| < 2 then SecretRows(rows[1..])
    else if rows[0][0] == Marker then []
    else [rows[0]] + SecretRows(rows[1..])
  }

  /** Before any marker, the secret rows of a concatenation are those of
      each part in turn. */
  lemma {:induction false} SecretRowsAppend(a: seq<Row>, b: seq<Row>)
    requires !HasMarker(a)
    ensures SecretRows(a + b) == SecretRows(a) + SecretRows(b)
  {
    if a == [] {
      assert a + b == b;
    } else {
      assert (a + b)[1..] == a[1..] + b;
      assert !IsMarker(a[0]);
      SecretRowsAppend(a[1..], b);
    }
  }

  /** A marker row ends the secret rows: nothing at or after it is kept. */
  lemma {:induction false} SecretRowsStopAtMarker(before: seq<Row>, marker: Row, after: seq<Row>)
    requires IsMarker(marker)
    ensures SecretRows(before + [marker] + after) == SecretRows(before)
  {
    if before == [] {
      assert before + [marker] + after == [marker] + after;
    } else {
      assert (before + [marker] + after)[1..] == before[1..] + [marker] + after;
      SecretRowsStopAtMarker(before[1..], marker, after);
    }
  }

  /** A row with fewer than two fields is never a secret row. */
  lemma {:induction false} SecretRowsSkipShortRow(before: seq<Row>, short: Row, after: seq<Row>)
    requires |short| < 2
    ensures SecretRows(before + [short] + after) == SecretRows(before + after)
  {
    if before == [] {
      assert before + [short] + after == [short] + after;
      assert ([short] + after)[1..] == after && before + after == after;
    } else {
      assert (before + [short] + after)[1..] == before[1..] + [short] + after;
      assert (before + after)[1..] == before[1..] + after;
      SecretRowsSkipShortRow(before[1..], short, after);
    }
  }

  /** Rows of two or more fields, none of them a marker, are all kept, in
      file order. */
  lemma {:induction false} SecretRowsKeepAll(rows: seq<Row>)
    requires forall k :: 0 <= k < |rows| ==> |rows[k]| >= 2 && !IsMarker(rows[k])
    ensures SecretRows(rows) == rows
  {
    if rows != [] {
      assert !IsMarker(rows[0]);
      SecretRowsKeepAll(rows[1..]);
      assert rows == [rows[0]] + rows[1..];
    }
  }

  /** How a stored secret becomes a key, or the error that ends the run. */
  type KeyDecoder = string -> Result<seq<byte>, Base32.DecodeError>

  /** The decoder the commands use: the secret with its spaces removed,
      upper-cased and read as unpadded base32. The listing lemmas below
      hold for any decoder. */
  function SecretKey(secret: string): (key: Result<seq<byte>, Base32.DecodeError>)
    ensures var cleaned := Base32.Clean(secret);
      key.Success? <==> Base32.ValidLength(|cleaned|) && forall i :: 0 <= i < |cleaned| ==> Base32.IsSymbol(cleaned[i])
  {
    Base32.Decode(Base32.Clean(secret))
  }

  datatype Entry = Entry(name: string, code: nat)

  /** The rows processed in order, as the loop does: short rows skipped,
      stop at the marker, and the first secret that does not decode ends
      everything. Every code is computed from the one counter message. */
  function Listing(rows: seq<Row>, decode: KeyDecoder, counter: seq<byte>, hmac: Otp.Hmac): (r: Result<seq<Entry>, Base32.DecodeError>)
    ensures r.Success? ==> |r.value| == |SecretRows(rows)|
    ensures r.Success? ==> forall k :: 0 <= k < |r.value| ==> r.value[k].code < Otp.CodeModulus
  {
    if rows == [] then Success([])
    else if |rows[0]| < 2 then Listing(rows[1..], decode, counter, hmac)
    else if rows[0][0] == Marker then Success([])
    else
      match decode(rows[0][1])
      case Failure(e) => Failure(e)
      case Success(key) =>
        match Listing(rows[1..], decode, counter, hmac)
        case Failure(e) => Failure(e)
        case Success(rest) => Success([Entry(rows[0][0], Otp.Code(hmac(key, counter)))] + rest)
  }

  /** The entries already produced, in front of the outcome of the rest. */
  function Prepend(done: seq<Entry>, rest: Result<seq<Entry>, Base32.DecodeError>): (r: Result<seq<Entry>, Base32.DecodeError>)
    ensures r.Success? <==> rest.Success?
    ensures rest.Failure? ==> r == rest
    ensures rest.Success? ==> |r.value| == |done| + |rest.value|
    ensures done == [] ==> r == rest
  {
    match rest
    case Failure(e) => Failure(e)
    case Success(entries) =>
      assert [] + entries == entries;
      Success(done + entries)
  }

  /** Prepending in two steps is prepending the concatenation. */
  lemma PrependPrepend(done: seq<Entry>, more: seq<Entry>, rest: Result<seq<Entry>, Base32.DecodeError>)
    ensures Prepend(done, Prepend(more, rest)) == Prepend(done + more, rest)
  {
    if rest.Success? {
      assert done + (more + rest.value) == (done + more) + rest.value;
    }
  }

  /** A row with fewer than two fields is skipped. */
  lemma ListingSkips(rows: seq<Row>, i: nat, decode: KeyDecoder, counter: seq<byte>, hmac: Otp.Hmac)
    requires i < |rows| && |rows[i]| < 2
    ensures Listing(rows[i..], decode, counter, hmac) == Listing(rows[i + 1..], decode, counter, hmac)
  {
    assert rows[i..][1..] == rows[i + 1..];
  }

  /** A marker row ends the listing. */
  lemma ListingEndsAtMarker(rows: seq<Row>, i: nat, decode: KeyDecoder, counter: seq<byte>, hmac: Otp.Hmac)
    requires i < |rows| && IsMarker(rows[i])
    ensures Listing(rows[i..], decode, counter, hmac) == Success([])
  {
  }

  /** A secret row that does not decode ends the listing with its error. */
  lemma ListingFails(rows: seq<Row>, i: nat, decode: KeyDecoder, counter: seq<byte>, hmac: Otp.Hmac)
    requires i < |rows| && |rows[i]| >= 2 && !IsMarker(rows[i]) && decode(rows[i][1]).Failure?
    ensures Listing(rows[i..], decode, counter, hmac) == Failure(decode(rows[i][1]).error)
  {
  }

  /** A secret row that decodes moves its entry from the outcome of the
      rest to the entries already produced. */
  lemma ListingStep(rows: seq<Row>, i: nat, done: seq<Entry>, decode: KeyDecoder, counter: seq<byte>, hmac: Otp.Hmac)
    requires i < |rows| && |rows[i]| >= 2 && !IsMarker(rows[i]) && decode(rows[i][1]).Success?
    ensures var entry := Entry(rows[i][0], Otp.Code(hmac(decode(rows[i][1]).value, counter)));
      Prepend(done, Listing(rows[i..], decode, counter, hmac)) == Prepend(done + [entry], Listing(rows[i + 1..], decode, counter, hmac))
  {
    var entry := Entry(rows[i][0], Otp.Code(hmac(decode(rows[i][1]).value, counter)));
    assert rows[i..][1..] == rows[i + 1..];
    PrependPrepend(done, [entry], Listing(rows[i + 1..], decode, counter, hmac));
  }

  predicate AllDecode(secrets: seq<Row>, decode: KeyDecoder)
    requires forall k :: 0 <= k < |secrets| ==> |secrets[k]| >= 2
  {
    forall k :: 0 <= k < |secrets| ==> decode(secrets[k][1]).Success?
  }

  lemma AllDecodeCons(row: Row, tail: seq<Row>, decode: KeyDecoder)
    requires |row| >= 2 && forall k :: 0 <= k < |tail| ==> |tail[k]| >= 2
    ensures AllDecode([row] + tail, decode) <==> decode(row[1]).Success? && AllDecode(tail, decode)
  {
    var s := [row] + tail;
    assert s[0] == row;
    assert forall k :: 0 <= k < |tail| ==> s[k + 1] == tail[k];
    if decode(row[1]).Success? && AllDecode(tail, decode) {
      forall k | 0 <= k < |s| ensures decode(s[k][1]).Success? {
        if k > 0 { assert s[k] == tail[k - 1]; }
      }
    }
  }

  /** The listing succeeds exactly when every secret row decodes. */
  lemma {:induction false} ListingSucceedsIff(rows: seq<Row>, decode: KeyDecoder, counter: seq<byte>, hmac: Otp.Hmac)
    ensures Listing(rows, decode, counter, hmac).Success? <==> AllDecode(SecretRows(rows), decode)
  {
    if rows != [] {
      ListingSucceedsIff(rows[1..], decode, counter, hmac);
      if |rows[0]| >= 2 && rows[0][0] != Marker {
        assert SecretRows(rows) == [rows[0]] + SecretRows(rows[1..]);
        AllDecodeCons(rows[0], SecretRows(rows[1..]), decode);
      }
    }
  }

  /** The entry the listing makes for a secret row: the row's label and
      the code of the row's key under the counter. */
  predicate EntryOf(secret: Row, entry: Entry, decode: KeyDecoder, counter: seq<byte>, hmac: Otp.Hmac)
  {
    && |secret| >= 2
    && decode(secret[1]).Success?
    && entry == Entry(secret[0], Otp.Code(hmac(decode(secret[1]).value, counter)))
  }

  /** The secrets alone turned into entries, stopping at the first that
      does not decode: the listing with the skipping and the marker taken
      out. */
  function SecretEntries(secrets: seq<Row>, decode: KeyDecoder, counter: seq<byte>, hmac: Otp.Hmac): (r: Result<seq<Entry>, Base32.DecodeError>)
    requires forall k :: 0 <= k < |secrets| ==> |secrets[k]| >= 2
    ensures r.Success? <==> AllDecode(secrets, decode)
    ensures r.Success? ==> |r.value| == |secrets|
  {
    if secrets == [] then Success([])
    else
      match decode(secrets[0][1])
      case Failure(e) => Failure(e)
      case Success(key) =>
        Prepend([Entry(secrets[0][0], Otp.Code(hmac(key, counter)))], SecretEntries(secrets[1..], decode, counter, hmac))
  }

  /** The listing of a file is that of its secret rows. */
  lemma {:induction false} ListingOfSecrets(rows: seq<Row>, decode: KeyDecoder, counter: seq<byte>, hmac: Otp.Hmac)
    ensures Listing(rows, decode, counter, hmac) == SecretEntries(SecretRows(rows), decode, counter, hmac)
  {
    if rows != [] {
      ListingOfSecrets(rows[1..], decode, counter, hmac);
      if |rows[0]| >= 2 && rows[0][0] != Marker {
        assert SecretRows(rows)[1..] == SecretRows(rows[1..]);
      }
    }
  }

  /** When every secret decodes, there is one entry per secret and the
      k-th entry is made from the k-th secret. */
  lemma {:induction false} SecretEntryAt(secrets: seq<Row>, k: nat, decode: KeyDecoder, counter: seq<byte>, hmac: Otp.Hmac)
    requires forall j :: 0 <= j < |secrets| ==> |secrets[j]| >= 2
    requires SecretEntries(secrets, decode, counter, hmac).Success?
    ensures |SecretEntries(secrets, decode, counter, hmac).value| == |secrets|
    ensures k < |secrets| ==> EntryOf(secrets[k], SecretEntries(secrets, decode, counter, hmac).value[k], decode, counter, hmac)
  {
    if secrets != [] {
      var tail := secrets[1..];
      if k == 0 {
        SecretEntryAt(tail, 0, decode, counter, hmac);
      } else {
        SecretEntryAt(tail, k - 1, decode, counter, hmac);
        if k < |secrets| {
          assert secrets[k] == tail[k - 1];
        }
      }
    }
  }

  /** On success the listing has one entry per secret row, in file order,
      named by the row's label and carrying the code of the row's key
      under the one shared counter. */
  lemma ListingEntries(rows: seq<Row>, decode: KeyDecoder, counter: seq<byte>, hmac: Otp.Hmac)
    requires Listing(rows, decode, counter, hmac).Success?
    ensures var entries, secrets := Listing(rows, decode, counter, hmac).value, SecretRows(rows);
      && |entries| == |secrets|
      && forall k :: 0 <= k < |secrets| ==> EntryOf(secrets[k], entries[k], decode, counter, hmac)
  {
    ListingOfSecrets(rows, decode, counter, hmac);
    var secrets := SecretRows(rows);
    SecretEntryAt(secrets, 0, decode, counter, hmac);
    forall k | 0 <= k < |secrets|
      ensures EntryOf(secrets[k], Listing(rows, decode, counter, hmac).value[k], decode, counter, hmac)
    {
      SecretEntryAt(secrets, k, decode, counter, hmac);
    }
  }

  /** The index of the first secret that does not decode, or the number
      of secrets when all of them decode. */
  function FirstBadSecret(secrets: seq<Row>, decode: KeyDecoder): (k: nat)
    requires forall j :: 0 <= j < |secrets| ==> |secrets[j]| >= 2
    ensures k <= |secrets|
  {
    if secrets == [] || decode(secrets[0][1]).Failure? then 0
    else 1 + FirstBadSecret(secrets[1..], decode)
  }

  /** Every secret before the first bad one decodes, and the first bad one
      (if any) does not. */
  lemma {:induction false} FirstBadSecretIsFirst(secrets: seq<Row>, decode: KeyDecoder)
    requires forall j :: 0 <= j < |secrets| ==> |secrets[j]| >= 2
    ensures var k := FirstBadSecret(secrets, decode);
      && AllDecode(secrets[..k], decode)
      && (k < |secrets| ==> decode(secrets[k][1]).Failure?)
  {
    var k := FirstBadSecret(secrets, decode);
    if k == 0 {
      assert secrets[..k] == [];
    } else {
      var tail := secrets[1..];
      FirstBadSecretIsFirst(tail, decode);
      assert secrets[..k] == [secrets[0]] + tail[..k - 1];
      AllDecodeCons(secrets[0], tail[..k - 1], decode);
      if k < |secrets| {
        assert secrets[k] == tail[k - 1];
      }
    }
  }

  /** On failure the error is that of the first secret row that does not
      decode. */
  lemma {:induction false} ListingFirstError(rows: seq<Row>, decode: KeyDecoder, counter: seq<byte>, hmac: Otp.Hmac)
    requires Listing(rows, decode, counter, hmac).Failure?
    ensures var secrets := SecretRows(rows);
      var k := FirstBadSecret(secrets, decode);
      k < |secrets| && decode(secrets[k][1]) == Failure(Listing(rows, decode, counter, hmac).error)
  {
    var secrets := SecretRows(rows);
    var tail := SecretRows(rows[1..]);
    FirstBadSecretIsFirst(secrets, decode);
    if |rows[0]| < 2 {
      assert secrets == tail;
      ListingFirstError(rows[1..], decode, counter, hmac);
    } else {
      assert secrets == [rows[0]] + tail;
      assert secrets[1..] == tail;
      if decode(rows[0][1]).Success? {
        ListingFirstError(rows[1..], decode, counter, hmac);
      }
    }
  }

  /** No row after a marker matters: the listing of a file is the listing
      of the rows before its marker. */
  lemma {:induction false} ListingStopsAtMarker(before: seq<Row>, marker: Row, after: seq<Row>, decode: KeyDecoder, counter: seq<byte>, hmac: Otp.Hmac)
    requires IsMarker(marker)
    ensures Listing(before + [marker] + after, decode, counter, hmac) == Listing(before, decode, counter, hmac)
  {
    if before == [] {
      assert before + [marker] + after == [marker] + after;
    } else {
      assert (before + [marker] + after)[1..] == before[1..] + [marker] + after;
      ListingStopsAtMarker(before[1..], marker, after, decode, counter, hmac);
    }
  }

  /** Fail-fast: once a prefix of the file fails to decode, no later row
      changes the outcome. */
  lemma {:induction false} ListingAbortIgnoresRest(before: seq<Row>, after: seq<Row>, decode: KeyDecoder, counter: seq<byte>, hmac: Otp.Hmac)
    requires Listing(before, decode, counter, hmac).Failure?
    ensures Listing(before + after, decode, counter, hmac) == Listing(before, decode, counter, hmac)
  {
    assert before != [];
    assert (before + after)[1..] == before[1..] + after;
    if |before[0]| < 2 || decode(before[0][1]).Success? {
      ListingAbortIgnoresRest(before[1..], after, decode, counter, hmac);
    }
  }

  /** A row with fewer than two fields contributes nothing and no error. */
  lemma {:induction false} ListingSkipsShortRow(before: seq<Row>, short: Row, after: seq<Row>, decode: KeyDecoder, counter: seq<byte>, hmac: Otp.Hmac)
    requires |short| < 2
    ensures Listing(before + [short] + after, decode, counter, hmac) == Listing(before + after, decode, counter, hmac)
  {
    if before == [] {
      assert before + [short] + after == [short] + after;
      assert ([short] + after)[1..] == after && before + after == after;
    } else {
      assert (before + [short] + after)[1..] == before[1..] + [short] + after;
      assert (before + after)[1..] == before[1..] + after;
      ListingSkipsShortRow(before[1..], short, after, decode, counter, hmac);
    }
  }

  // ---------------------------------------------------------------------
  // The password selection (`Decrypt`, `GenPasswordText`).

  /** A row the password loop prints once the marker has been seen. */
  predicate Matches(row: Row, key: string)
    ensures Matches(row, key) ==> !IsMarker(row) && |row| >= 2
  {
    |row| >= 2 && row[0] != Marker && (row[0] == key || key == AllKey)
  }

  /** The line `%s: %s\n` printed for a selected row: its label and its
      value decrypted. Rows shorter than two fields are never selected. */
  function PasswordLine(row: Row, decrypt: string -> string): (line: string)
    ensures |row| >= 2 ==>
      var n := |row[0]|;
      && |line| == n + 3 + |decrypt(row[1])|
      && line[..n + 2] == row[0] + ": "
      && line[n + 2..|line| - 1] == decrypt(row[1])
      && line[|line| - 1] == '\n'
  {
    if |row| < 2 then "" else row[0] + ": " + decrypt(row[1]) + "\n"
  }

  /** The rows processed in order with the `isPassword` flag: a marker sets
      it, and a matching row is selected only while it is set. */
  function Selection(rows: seq<Row>, key: string, isPassword: bool): (selected: seq<Row>)
    ensures forall k :: 0 <= k < |selected| ==> Matches(selected[k], key)
  {
    if rows == [] then []
    else if |rows[0]| < 2 then Selection(rows[1..], key, isPassword)
    else if rows[0][0] == Marker then Selection(rows[1..], key, true)
    else if !isPassword || (key != rows[0][0] && key != AllKey) then Selection(rows[1..], key, isPassword)
    else [rows[0]] + Selection(rows[1..], key, isPassword)
  }

  /** Selection runs through the file in order, and the flag is set for the
      second part exactly when it was set before or the first part holds a
      marker. */
  lemma {:induction false} SelectionAppend(a: seq<Row>, b: seq<Row>, key: string, isPassword: bool)
    ensures Selection(a + b, key, isPassword) == Selection(a, key, isPassword) + Selection(b, key, isPassword || HasMarker(a))
  {
    if a == [] {
      assert a + b == b;
    } else {
      assert (a + b)[1..] == a[1..] + b;
      var flag := if IsMarker(a[0]) then true else isPassword;
      SelectionAppend(a[1..], b, key, flag);
      assert HasMarker(a) == (IsMarker(a[0]) || HasMarker(a[1..])) by {
        if HasMarker(a[1..]) {
          var j :| 0 <= j < |a[1..]| && IsMarker(a[1..][j]);
          assert IsMarker(a[j + 1]);
        }
        if HasMarker(a) && !IsMarker(a[0]) {
          var j :| 0 <= j < |a| && IsMarker(a[j]);
          assert IsMarker(a[1..][j - 1]);
        }
      }
    }
  }

  /** A marker is in `rows + [row]` exactly when it is in `rows` or is `row`. */
  lemma HasMarkerSnoc(rows: seq<Row>, row: Row)
    ensures HasMarker(rows + [row]) <==> HasMarker(rows) || IsMarker(row)
  {
    var s := rows + [row];
    if HasMarker(rows) {
      var j :| 0 <= j < |rows| && IsMarker(rows[j]);
      assert s[j] == rows[j];
    }
    if IsMarker(row) {
      assert s[|rows|] == row;
    }
    if HasMarker(s) {
      var j :| 0 <= j < |s| && IsMarker(s[j]);
      if j < |rows| {
        assert rows[j] == s[j];
      }
    }
  }

  /** The selection of the first `i + 1` rows: that of the first `i`, then
      row `i` if it is selected, and the flag set by a marker among them. */
  lemma SelectionSnoc(rows: seq<Row>, i: nat, key: string)
    requires i < |rows|
    ensures HasMarker(rows[..i + 1]) <==> HasMarker(rows[..i]) || IsMarker(rows[i])
    ensures Selection(rows[..i + 1], key, false)
      == Selection(rows[..i], key, false) + (if HasMarker(rows[..i]) && Matches(rows[i], key) then [rows[i]] else [])
  {
    assert rows[..i + 1] == rows[..i] + [rows[i]];
    HasMarkerSnoc(rows[..i], rows[i]);
    SelectionAppend(rows[..i], [rows[i]], key, false);
    assert [rows[i]][1..] == [];
  }

  /** Without the flag set, rows before the marker select nothing. */
  lemma {:induction false} NothingBeforeMarker(rows: seq<Row>, key: string)
    requires !HasMarker(rows)
    ensures Selection(rows, key, false) == []
  {
    if rows != [] {
      NothingBeforeMarker(rows[1..], key);
    }
  }

  /** The marker row and every row before the first marker are never
      selected: what is selected is the matching rows after it. */
  lemma SelectionAfterFirstMarker(before: seq<Row>, marker: Row, after: seq<Row>, key: string)
    requires !HasMarker(before) && IsMarker(marker)
    ensures Selection(before + [marker] + after, key, false) == Selection(after, key, true)
  {
    SelectionAppend(before, [marker] + after, key, false);
    NothingBeforeMarker(before, key);
    assert ([marker] + after)[1..] == after;
    assert before + [marker] + after == before + ([marker] + after);
  }

  /** Once the flag is set, every matching row is selected, in order. */
  lemma {:induction false} SelectionWithFlag(rows: seq<Row>, key: string)
    ensures Selection(rows, key, true) == Matching(rows, key)
  {
    if rows != [] {
      SelectionWithFlag(rows[1..], key);
    }
  }

  /** The matching rows of a sequence, in order. */
  function Matching(rows: seq<Row>, key: string): (matching: seq<Row>)
    ensures |matching| <= |rows|
    ensures forall row :: row in matching <==> row in rows && Matches(row, key)
  {
    if rows == [] then []
    else if Matches(rows[0], key) then [rows[0]] + Matching(rows[1..], key)
    else Matching(rows[1..], key)
  }
}
