/** The two commands of the `sec` command line that read the credential
    file: `2fa` (`TowFA`), which prints the current TOTP code of every
    secret, and `decrypt`, which prints the selected passwords. */
module Commands {
  import opened Numeric
  import opened Wrappers
  import Base32
  import Otp
  import TimeStep
  import Format
  import opened Credentials
  import Listings

  /** The heading of the trailer, "剩余有效期" ("remaining validity"). */
  const RemainingLabel: string := "剩余有效期"

  /** One line of the listing, `%s: %06d \n`. */
  function CodeLine(entry: Entry): (line: string)
    ensures |line| >= |entry.name| + 10
    ensures line[..|entry.name| + 2] == entry.name + ": " && line[|line| - 2..] == " \n"
    ensures Format.IsDigits(line[|entry.name| + 2..|line| - 2])
    ensures Format.DecimalValue(line[|entry.name| + 2..|line| - 2]) == entry.code
  {
    var digits := Format.ZeroPadded(entry.code, 6);
    var line := entry.name + ": " + digits + " \n";
    assert line[|entry.name| + 2..|line| - 2] == digits;
    line
  }

  /** A line reads back as the entry's name, then its code in exactly six
      digits. */
  lemma CodeLineParts(entry: Entry)
    requires entry.code < Otp.CodeModulus
    ensures var line, n := CodeLine(entry), |entry.name|;
      && |line| == n + 10
      && line[..n + 2] == entry.name + ": "
      && Format.IsDigits(line[n + 2..n + 8])
      && Format.DecimalValue(line[n + 2..n + 8]) == entry.code
      && line[n + 8..] == " \n"
  {
    var n := |entry.name|;
    var digits := Format.ZeroPadded(entry.code, 6);
    Format.SixDigits(entry.code);
    assert CodeLine(entry)[n + 2..n + 8] == digits;
  }

  /** The trailer printed after the listing, `剩余有效期: %ds`. */
  function Trailer(secondsRemaining: int): (t: string)
    requires secondsRemaining >= 1
    ensures |t| >= |RemainingLabel| + 3
    ensures t[..|RemainingLabel| + 2] == RemainingLabel + ": " && t[|t| - 1] == 's'
    ensures Format.IsDigits(t[|RemainingLabel| + 2..|t| - 1])
    ensures Format.DecimalValue(t[|RemainingLabel| + 2..|t| - 1]) == secondsRemaining
  {
    var digits := Format.Decimal(secondsRemaining);
    var t := RemainingLabel + ": " + digits + "s";
    assert t[|RemainingLabel| + 2..|t| - 1] == digits;
    t
  }

  /** `sec 2fa`: the codes of all secret rows at `epochSeconds`, followed by
      the seconds they stay valid. The secrets are decoded in file order and
      the first one that does not decode ends the process with no listing. */
  method TowFA(file: CsvFile, epochSeconds: int, hmac: Otp.Hmac) returns (run: Run)
    requires TimeStep.MinInt64 <= epochSeconds <= TimeStep.MaxInt64
    ensures file.Unreadable? ==> run == OpenFailed(file.err)
    ensures file.Readable? ==>
      match Listing(file.rows, SecretKey, Otp.CounterBytes(TimeStep.Counter(epochSeconds)), hmac)
      case Failure(e) => run == Exit(e)
      case Success(entries) => run == Output(Format.Joined(entries, CodeLine) + Trailer(TimeStep.SecondsRemaining(epochSeconds)))
  {
    if file.Unreadable? {
      return OpenFailed(file.err);
    }
    var secondsRemaining := TimeStep.StepSeconds - TimeStep.GoRem(epochSeconds, TimeStep.StepSeconds);
    var step := TimeStep.GoDiv(epochSeconds, TimeStep.StepSeconds);
    var listed := Listings.ListCodes(file.rows, step, hmac, SecretKey, CodeLine);
    if listed.Failure? {
      return Exit(listed.error);
    }
    run := Output(listed.value + Trailer(secondsRemaining));
  }

  // ---------------------------------------------------------------------
  // `sec decrypt -k key`

  /** `sec decrypt -k key`: the lines printed, one per selected row in file
      order, and the error returned when the file cannot be opened. The
      AES-ECB decryption under the `AES_KEY` key is `decrypt`. */
  method Decrypt(file: CsvFile, key: string, decrypt: string -> string) returns (printed: seq<string>, err: Option<string>)
    ensures file.Unreadable? ==> printed == [] && err == Some(file.err)
    ensures file.Readable? ==>
      var selected := Selection(file.rows, key, false);
      && err == None
      && |printed| == |selected|
      && forall k :: 0 <= k < |selected| ==> printed[k] == PasswordLine(selected[k], decrypt)
  {
    if file.Unreadable? {
      return [], Some(file.err);
    }
    var rows := file.rows;
    printed := [];
    var isPassword := false;
    for i := 0 to |rows|
      invariant isPassword == HasMarker(rows[..i])
      invariant |printed| == |Selection(rows[..i], key, false)|
      invariant forall k :: 0 <= k < |printed| ==> printed[k] == PasswordLine(Selection(rows[..i], key, false)[k], decrypt)
    {
      var row := rows[i];
      SelectionSnoc(rows, i, key);
      if |row| < 2 {
        continue;
      }
      if row[0] == Marker {
        isPassword := true;
        continue;
      }
      if !isPassword || (key != row[0] && key != AllKey) {
        continue;
      }
      var res := decrypt(row[1]);
      printed := printed + [row[0] + ": " + res + "\n"];
    }
    assert rows[..|rows|] == rows;
    err := None;
  }
}
