/** The text the desktop window shows in its two tabs: the TOTP listing
    with the validity of each code on its line (`Gen2FAText`) and the
    selected passwords (`GenPasswordText`). */
module View {
  import opened Wrappers
  import Otp
  import TimeStep
  import Format
  import opened Credentials
  import Listings

  /** The suffix "秒后过期" ("seconds until expiry"). */
  const ExpirySuffix: string := "秒后过期\n"

  /** One line of the window listing, `%s: %06d %d秒后过期\n`. */
  function ExpiringLine(entry: Entry, secondsRemaining: nat): (line: string)
    ensures |line| >= |entry.name| + 10 + |ExpirySuffix|
    ensures line[..|entry.name| + 2] == entry.name + ": "
    ensures line[|line| - |ExpirySuffix|..] == ExpirySuffix
  {
    entry.name + ": " + Format.ZeroPadded(entry.code, 6) + " " + Format.Decimal(secondsRemaining) + ExpirySuffix
  }

  /** The line maker for one remaining-seconds value. */
  function ExpiringLineAt(secondsRemaining: nat): Entry -> string
  {
    entry => ExpiringLine(entry, secondsRemaining)
  }

  /** A window line reads back as the entry's name, its code in exactly six
      digits, then the remaining seconds. */
  lemma ExpiringLineParts(entry: Entry, secondsRemaining: nat)
    requires entry.code < Otp.CodeModulus
    ensures var line, n := ExpiringLine(entry, secondsRemaining), |entry.name|;
      && |line| > n + 9 + |ExpirySuffix|
      && line[..n + 2] == entry.name + ": "
      && Format.IsDigits(line[n + 2..n + 8])
      && Format.DecimalValue(line[n + 2..n + 8]) == entry.code
      && line[n + 8] == ' '
      && Format.IsDigits(line[n + 9..|line| - |ExpirySuffix|])
      && Format.DecimalValue(line[n + 9..|line| - |ExpirySuffix|]) == secondsRemaining
      && line[|line| - |ExpirySuffix|..] == ExpirySuffix
  {
    var n := |entry.name|;
    var line := ExpiringLine(entry, secondsRemaining);
    var digits := Format.ZeroPadded(entry.code, 6);
    var seconds := Format.Decimal(secondsRemaining);
    Format.SixDigits(entry.code);
    assert line == entry.name + ": " + digits + " " + seconds + ExpirySuffix;
    assert line[n + 2..n + 8] == digits;
    assert line[n + 9..|line| - |ExpirySuffix|] == seconds;
  }

  /** The window shows each code as the command line does: the two lines
      agree up to the code's last digit. */
  lemma SameCodeAsCommandLine(entry: Entry, secondsRemaining: nat, cliLine: string)
    requires entry.code < Otp.CodeModulus
    requires cliLine == entry.name + ": " + Format.ZeroPadded(entry.code, 6) + " \n"
    ensures ExpiringLine(entry, secondsRemaining)[..|entry.name| + 8] == cliLine[..|entry.name| + 8]
  {
    Format.SixDigits(entry.code);
  }

  /** `Gen2FAText`: the codes of all secret rows at `epochSeconds`, each
      line ending with the seconds the code stays valid. The secrets are
      decoded in file order and the first one that does not decode ends the
      process. An unreadable file gives the empty text and the error. */
  method Gen2FAText(file: CsvFile, epochSeconds: int, hmac: Otp.Hmac) returns (run: Run)
    requires TimeStep.MinInt64 <= epochSeconds <= TimeStep.MaxInt64
    ensures file.Unreadable? ==> run == OpenFailed(file.err)
    ensures file.Readable? ==>
      var listing := Listing(file.rows, SecretKey, Otp.CounterBytes(TimeStep.Counter(epochSeconds)), hmac);
      && (listing.Failure? ==> run == Exit(listing.error))
      && (listing.Success? ==>
            run == Output(Format.Joined(listing.value, ExpiringLineAt(TimeStep.SecondsRemaining(epochSeconds)))))
  {
    if file.Unreadable? {
      return OpenFailed(file.err);
    }
    var secondsRemaining := TimeStep.StepSeconds - TimeStep.GoRem(epochSeconds, TimeStep.StepSeconds);
    var step := TimeStep.GoDiv(epochSeconds, TimeStep.StepSeconds);
    var listed := Listings.ListCodes(file.rows, step, hmac, SecretKey, ExpiringLineAt(secondsRemaining));
    if listed.Failure? {
      return Exit(listed.error);
    }
    run := Output(listed.value);
  }

  /** The line maker for one decryption. */
  function PasswordLineWith(decrypt: string -> string): Row -> string
  {
    row => PasswordLine(row, decrypt)
  }

  /** `GenPasswordText`: the selected rows in file order, one line each
      with the value decrypted. The key is a parameter: the function reads
      it from a `c` that view.go never declares. An unreadable file gives
      the empty text and the error. */
  method GenPasswordText(file: CsvFile, key: string, decrypt: string -> string) returns (run: Run)
    ensures file.Unreadable? ==> run == OpenFailed(file.err)
    ensures file.Readable? ==>
      run == Output(Format.Joined(Selection(file.rows, key, false), PasswordLineWith(decrypt)))
  {
    if file.Unreadable? {
      return OpenFailed(file.err);
    }
    var rows := file.rows;
    var isPassword := false;
    var text := "";
    for i := 0 to |rows|
      invariant isPassword == HasMarker(rows[..i])
      invariant text == Format.Joined(Selection(rows[..i], key, false), PasswordLineWith(decrypt))
    {
      var row := rows[i];
      ghost var selected := Selection(rows[..i], key, false);
      SelectionSnoc(rows, i, key);
      if |row| < 2 {
        assert Selection(rows[..i + 1], key, false) == selected;
        continue;
      }
      if row[0] == Marker {
        isPassword := true;
        assert Selection(rows[..i + 1], key, false) == selected;
        continue;
      }
      if !isPassword || (key != row[0] && key != AllKey) {
        assert Selection(rows[..i + 1], key, false) == selected;
        continue;
      }
      var res := decrypt(row[1]);
      assert Selection(rows[..i + 1], key, false) == selected + [row];
      assert PasswordLineWith(decrypt)(row) == row[0] + ": " + res + "\n";
      Format.JoinedSnoc(selected, row, PasswordLineWith(decrypt));
      text := text + (row[0] + ": " + res + "\n");
    }
    assert rows[..|rows|] == rows;
    run := Output(text);
  }
}
