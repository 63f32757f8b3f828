/** What a single record must be, said of its integers and of the bytes its token text stands for. */
module ServerSurfaceRecords {
  import opened ServerSurface

  function Integers(row: Row): seq<int> {
    match row
    case Malformed => []
    case Fault => []
    case Ready(p) => [p]
    case Connection(c, p, u, g, b, f) => [c, p, u, g, b, f]
    case ClientDestroy(c) => [c]
    case ResourceLive(c, _, o) => [c, o]
    case ResourceDestroy(c, _, o) => [c, o]
    case Destroy(c, _, o) => [c, o]
    case XdgSurfaceRequest(c, x, s) => [c, x, s]
    case ToplevelRequest(c, x, t) => [c, x, t]
    case Activate(c, s, _) => [c, s]
  }

  /** No fault, every field there, and every integer positive and below 2 to the 64th. */
  ghost predicate Sound(row: Row) {
    !row.Malformed? && !row.Fault?
    && forall i :: 0 <= i < |Integers(row)| ==> 1 <= Integers(row)[i] <= 18446744073709551615
  }

  lemma SoundExactly(row: Row)
    ensures IntegersOk(row) <==> Sound(row)
  {
    var all := Integers(row);
    if row.Malformed? || row.Fault? { return; }
    assert Sound(row) <==> forall i :: 0 <= i < |all| ==> 1 <= all[i] <= 18446744073709551615;
    if row.Connection? {
      assert all[0] == row.connection && all[1] == row.pid && all[2] == row.uid;
      assert all[3] == row.gid && all[4] == row.birth && all[5] == row.pidfd;
    } else if |all| == 3 {
      assert row.XdgSurfaceRequest? ==> all[0] == row.connection && all[1] == row.xdgSurface && all[2] == row.surface;
      assert row.ToplevelRequest? ==> all[0] == row.connection && all[1] == row.xdgSurface && all[2] == row.toplevel;
    } else {
      assert all == if |all| == 1 then [all[0]] else [all[0], all[1]];
    }
  }

  type Byte = x: int | 0 <= x < 256

  const DIGITS: string := "0123456789abcdef"

  /** The bytes in lower-case hex, two digits each, the high one first. */
  ghost function Hex(bytes: seq<Byte>): string {
    if bytes == [] then "" else [DIGITS[bytes[0] / 16], DIGITS[bytes[0] % 16]] + Hex(bytes[1..])
  }

  /** One to 4096 bytes in hex. */
  ghost predicate HexToken(token: string) {
    exists bytes: seq<Byte> :: 1 <= |bytes| <= 4096 && token == Hex(bytes)
  }

  lemma {:induction false} HexDigits(bytes: seq<Byte>)
    ensures |Hex(bytes)| == 2 * |bytes| && forall i :: 0 <= i < |Hex(bytes)| ==> IsHexDigit(Hex(bytes)[i])
  {
    if bytes != [] {
      HexDigits(bytes[1..]);
      Digits(bytes[0] / 16);
      Digits(bytes[0] % 16);
    }
  }

  lemma Digits(d: int)
    requires 0 <= d < 16
    ensures IsHexDigit(DIGITS[d])
  {
  }

  lemma DigitValue(c: char) returns (d: int)
    requires IsHexDigit(c)
    ensures 0 <= d < 16 && DIGITS[d] == c
  {
    d := if c <= '9' then c as int - '0' as int else c as int - 'a' as int + 10;
  }

  lemma {:induction false} FromHex(token: string) returns (bytes: seq<Byte>)
    requires |token| % 2 == 0 && forall i :: 0 <= i < |token| ==> IsHexDigit(token[i])
    ensures 2 * |bytes| == |token| && token == Hex(bytes)
  {
    bytes := [];
    if token != "" {
      var high := DigitValue(token[0]);
      var low := DigitValue(token[1]);
      var rest := FromHex(token[2..]);
      var first: Byte := 16 * high + low;
      bytes := [first] + rest;
      assert first / 16 == high && first % 16 == low;
      assert bytes[1..] == rest;
      assert token == [token[0], token[1]] + token[2..];
    }
  }

  lemma TokenExactly(token: string)
    ensures TokenEncoded(token) <==> HexToken(token)
  {
    if TokenEncoded(token) {
      var bytes := FromHex(token);
    }
    if HexToken(token) {
      var bytes: seq<Byte> :| 1 <= |bytes| <= 4096 && token == Hex(bytes);
      HexDigits(bytes);
    }
  }
}
