/** The row loop that `TowFA` (main.go) and `Gen2FAText` (view.go) both
    run over the credential file, written once: each secret row is decoded
    and turned into a line carrying its current code. */
module Listings {
  import opened Numeric
  import opened Wrappers
  import Base32
  import Otp
  import Format
  import opened Credentials

  /** The loop shared by `TowFA` and `Gen2FAText`: the secret rows in file
      order, each decoded by `decode` (the commands pass `SecretKey`) and
      turned into a line by `line`; the first secret that does not decode
      ends it with that error. */
  method ListCodes(rows: seq<Row>, step: int, hmac: Otp.Hmac, decode: KeyDecoder, line: Entry -> string)
    returns (result: Result<string, Base32.DecodeError>)
    ensures var listing := Listing(rows, decode, Otp.CounterBytes(step), hmac);
      && (listing.Failure? ==> result == Failure(listing.error))
      && (listing.Success? ==> result == Success(Format.Joined(listing.value, line)))
  {
    var text := "";
    ghost var counter := Otp.CounterBytes(step);
    ghost var done: seq<Entry> := [];
    var i := 0;
    while i < |rows|
      invariant 0 <= i <= |rows|
      invariant text == Format.Joined(done, line)
      invariant Listing(rows, decode, counter, hmac) == Prepend(done, Listing(rows[i..], decode, counter, hmac))
    {
      var row := rows[i];
      if |row| < 2 {
        ListingSkips(rows, i, decode, counter, hmac);
        i := i + 1;
        continue;
      }
      if row[0] == Marker {
        ListingEndsAtMarker(rows, i, decode, counter, hmac);
        break;
      }
      var key := decode(row[1]);
      if key.Failure? {
        ListingFails(rows, i, decode, counter, hmac);
        return Failure(key.error);
      }
      var value := Otp.ToBytes(step);
      var pwd := Otp.OneTimePassword(key.value, value, hmac);
      var entry := Entry(row[0], pwd);
      ListingStep(rows, i, done, decode, counter, hmac);
      Format.JoinedSnoc(done, entry, line);
      text := text + line(entry);
      done := done + [entry];
      i := i + 1;
    }
    assert Listing(rows[i..], decode, counter, hmac) == Success([]) by {
      if i == |rows| {
        assert rows[i..] == [];
      }
    }
    assert done + [] == done;
    return Success(text);
  }
}
