/** Standard base64 with padding, section 4 of RFC 4648, and the strict decoder of Python's `binascii`.

    The bits a last group leaves over are not checked to be zero, as that decoder does not check them. */
module Base64 {
  import opened Options

  type Byte = x: int | 0 <= x < 256
  type Sextet = x: int | 0 <= x < 64

  function Symbol(v: Sextet): (c: char)
    ensures Value(c) == Some(v)
  {
    if v < 26 then (v + 65) as char
    else if v < 52 then (v + 71) as char
    else if v < 62 then (v - 4) as char
    else if v == 62 then '+'
    else '/'
  }

  function Value(c: char): Option<Sextet> {
    if 'A' <= c <= 'Z' then Some(c as int - 65)
    else if 'a' <= c <= 'z' then Some(c as int - 71)
    else if '0' <= c <= '9' then Some(c as int + 4)
    else if c == '+' then Some(62)
    else if c == '/' then Some(63)
    else None
  }

  predicate InAlphabet(c: char) {
    c == '=' || Value(c).Some?
  }

  /** The four sextets of three bytes. */
  function First(a: Byte): Sextet { a / 4 }

  function Second(a: Byte, b: Byte): Sextet { a % 4 * 16 + b / 16 }

  function Third(b: Byte, c: Byte): Sextet { b % 16 * 4 + c / 64 }

  function Fourth(c: Byte): Sextet { c % 64 }

  /** Four symbols for three bytes. */
  function Quad(a: Byte, b: Byte, c: Byte): (q: string)
    ensures |q| == 4
    ensures Value(q[0]) == Some(First(a)) && Value(q[1]) == Some(Second(a, b))
    ensures Value(q[2]) == Some(Third(b, c)) && Value(q[3]) == Some(Fourth(c))
  {
    [Symbol(First(a)), Symbol(Second(a, b)), Symbol(Third(b, c)), Symbol(Fourth(c))]
  }

  function Encode(p: seq<Byte>): string {
    if p == [] then ""
    else if |p| == 1 then Quad(p[0], 0, 0)[..2] + "=="
    else if |p| == 2 then Quad(p[0], p[1], 0)[..3] + "="
    else Quad(p[0], p[1], p[2]) + Encode(p[3..])
  }

  /** The three bytes that four sextets carry. */
  function High(w: Sextet, x: Sextet): Byte { w * 4 + x / 16 }

  function Middle(x: Sextet, y: Sextet): Byte { x % 16 * 16 + y / 4 }

  function Low(y: Sextet, z: Sextet): Byte { y % 4 * 64 + z }

  function Decode(t: string): Option<seq<Byte>> {
    if t == "" then Some([])
    else if |t| < 4 then None
    else
      var w, x, y, z := Value(t[0]), Value(t[1]), Value(t[2]), Value(t[3]);
      if w.None? || x.None? then None
      else if |t| == 4 && t[2] == '=' && t[3] == '=' then Some([High(w.value, x.value)])
      else if y.None? then None
      else if |t| == 4 && t[3] == '=' then Some([High(w.value, x.value), Middle(x.value, y.value)])
      else if z.None? then None
      else
        var rest := Decode(t[4..]);
        if rest.None? then None
        else Some([High(w.value, x.value), Middle(x.value, y.value), Low(y.value, z.value)] + rest.value)
  }

  /** Nothing outside the alphabet decodes: no space, no line break. */
  lemma {:induction false} DecodedInAlphabet(t: string)
    requires Decode(t).Some?
    ensures forall k :: 0 <= k < |t| ==> InAlphabet(t[k])
  {
    hide Value, High, Middle, Low;
    if t != "" && !(|t| == 4 && t[3] == '=') {
      DecodedInAlphabet(t[4..]);
      forall k | 4 <= k < |t| ensures InAlphabet(t[k]) { assert t[k] == t[4..][k - 4]; }
    }
  }

  lemma SextetsCarryBytes(a: Byte, b: Byte, c: Byte)
    ensures High(First(a), Second(a, b)) == a
    ensures Middle(Second(a, b), Third(b, c)) == b
    ensures Low(Third(b, c), Fourth(c)) == c
  {
  }

  lemma {:induction false} RoundTrip(p: seq<Byte>)
    ensures Decode(Encode(p)) == Some(p)
  {
    hide Quad, Symbol, Value, First, Second, Third, Fourth;
    if |p| == 0 {
      assert Encode(p) == "";
    } else {
      hide Decode;
      if |p| == 1 {
        RoundTripOne(p[0]);
        assert p == [p[0]];
      } else if |p| == 2 {
        RoundTripTwo(p[0], p[1]);
        assert p == [p[0], p[1]];
      } else {
        assert Encode(p) == Quad(p[0], p[1], p[2]) + Encode(p[3..]);
        hide Encode;
        RoundTrip(p[3..]);
        RoundTripQuad(p[0], p[1], p[2], Encode(p[3..]), p[3..]);
        assert p == [p[0], p[1], p[2]] + p[3..];
      }
    }
  }

  lemma RoundTripOne(a: Byte)
    ensures Decode(Quad(a, 0, 0)[..2] + "==") == Some([a])
  {
    hide Quad, Value, Decode, High, Middle, Low, First, Second, Third, Fourth;
    SextetsCarryBytes(a, 0, 0);
    var t := Quad(a, 0, 0)[..2] + "==";
    assert t[2] == t[3] == '=';
    DecodeOne(t, First(a), Second(a, 0));
  }

  lemma DecodeOne(t: string, w: Sextet, x: Sextet)
    requires |t| == 4 && Value(t[0]) == Some(w) && Value(t[1]) == Some(x) && t[2] == t[3] == '='
    ensures Decode(t) == Some([High(w, x)])
  {
    hide Value;
  }

  lemma RoundTripTwo(a: Byte, b: Byte)
    ensures Decode(Quad(a, b, 0)[..3] + "=") == Some([a, b])
  {
    hide Quad, Value, Decode, High, Middle, Low, First, Second, Third, Fourth;
    SextetsCarryBytes(a, b, 0);
    var q := Quad(a, b, 0);
    DecodeTwo(q[..3] + "=", First(a), Second(a, b), Third(b, 0));
  }

  lemma DecodeTwo(t: string, w: Sextet, x: Sextet, y: Sextet)
    requires |t| == 4 && Value(t[0]) == Some(w) && Value(t[1]) == Some(x) && Value(t[2]) == Some(y) && t[3] == '='
    ensures Decode(t) == Some([High(w, x), Middle(x, y)])
  {
    NoValue();
    hide Value;
  }

  lemma NoValue()
    ensures Value('=').None?
  {
  }

  lemma RoundTripQuad(a: Byte, b: Byte, c: Byte, t: string, rest: seq<Byte>)
    requires Decode(t) == Some(rest)
    ensures Decode(Quad(a, b, c) + t) == Some([a, b, c] + rest)
  {
    hide Quad, Value, Decode, High, Middle, Low, First, Second, Third, Fourth;
    SextetsCarryBytes(a, b, c);
    var q := Quad(a, b, c);
    assert (q + t)[4..] == t;
    assert forall k :: 0 <= k < 4 ==> (q + t)[k] == q[k];
    DecodeQuad(q + t, t, First(a), Second(a, b), Third(b, c), Fourth(c));
  }

  lemma DecodeQuad(t: string, tail: string, w: Sextet, x: Sextet, y: Sextet, z: Sextet)
    requires |t| >= 4 && t[4..] == tail && Decode(tail).Some?
    requires Value(t[0]) == Some(w) && Value(t[1]) == Some(x) && Value(t[2]) == Some(y) && Value(t[3]) == Some(z)
    ensures Decode(t) == Some([High(w, x), Middle(x, y), Low(y, z)] + Decode(tail).value)
  {
    NoValue();
    hide Value, High, Middle, Low;
  }

  // ----- what decoding means, in the digits of RFC 4648 -----

  /** Table 1 of RFC 4648: the capital letters, the small ones, the digits, a plus sign and a slash. */
  ghost predicate DigitIs(c: char, v: int) {
    || (0 <= v < 26 && c as int == 'A' as int + v)
    || (26 <= v < 52 && c as int == 'a' as int + (v - 26))
    || (52 <= v < 62 && c as int == '0' as int + (v - 52))
    || (v == 62 && c == '+') || (v == 63 && c == '/')
  }

  lemma DigitExactly(c: char, v: Sextet)
    ensures Value(c) == Some(v) <==> DigitIs(c, v)
    ensures DigitIs(Symbol(v), v)
  {
  }

  lemma DigitRange(c: char, v: int)
    requires DigitIs(c, v)
    ensures 0 <= v < 64 && c != '=' && Value(c) == Some(v)
  {
  }

  /** Four digits are a number of 24 bits, and that is three bytes; of a group that is cut short by `=` the bits that
      fill no byte are dropped. */
  ghost predicate GroupIs(t: string, p: seq<Byte>, w: int, x: int, y: int, z: int) {
    && |t| == 4 && DigitIs(t[0], w) && DigitIs(t[1], x)
    && if |p| == 3 then
         DigitIs(t[2], y) && DigitIs(t[3], z)
         && 65536 * (p[0] as int) + 256 * (p[1] as int) + p[2] as int == 262144 * w + 4096 * x + 64 * y + z
       else if |p| == 2 then
         DigitIs(t[2], y) && t[3] == '=' && 256 * (p[0] as int) + p[1] as int == (262144 * w + 4096 * x + 64 * y) / 256
       else
         |p| == 1 && t[2] == '=' && t[3] == '=' && p[0] as int == (262144 * w + 4096 * x) / 65536
  }

  ghost predicate Group(t: string, p: seq<Byte>) { exists w, x, y, z :: GroupIs(t, p, w, x, y, z) }

  /** `t` is groups of four, all but the last of them full, and `p` is their bytes. */
  ghost predicate Decodes(t: string, p: seq<Byte>) {
    if t == "" then p == []
    else if |t| <= 4 then Group(t, p)
    else |p| >= 3 && Group(t[..4], p[..3]) && Decodes(t[4..], p[3..])
  }

  lemma BytesUnique(a: Byte, b: Byte, c: Byte, d: Byte, e: Byte, f: Byte)
    requires 65536 * (a as int) + 256 * (b as int) + c as int == 65536 * (d as int) + 256 * (e as int) + f as int
    ensures a == d && b == e && c == f
  {
    var ab, de := 256 * (a as int) + b as int, 256 * (d as int) + e as int;
    assert 256 * ab + c as int == 256 * de + f as int;
    assert ab == de;
  }

  lemma NumberOf(w: Sextet, x: Sextet, y: Sextet, z: Sextet)
    ensures 65536 * (High(w, x) as int) + 256 * (Middle(x, y) as int) + Low(y, z) as int
         == 262144 * w + 4096 * x + 64 * y + z
    ensures High(w, x) as int == (262144 * w + 4096 * x) / 65536
    ensures 256 * (High(w, x) as int) + Middle(x, y) as int == (262144 * w + 4096 * x + 64 * y) / 256
  {
    assert x as int == 16 * (x / 16) + x % 16 && y as int == 4 * (y / 4) + y % 4;
  }

  lemma FullGroup(t: string, a: Byte, b: Byte, c: Byte)
    requires |t| == 4
    ensures Group(t, [a, b, c])
       <==> (forall i :: 0 <= i < 4 ==> Value(t[i]).Some?)
            && a == High(Value(t[0]).value, Value(t[1]).value) && b == Middle(Value(t[1]).value, Value(t[2]).value)
            && c == Low(Value(t[2]).value, Value(t[3]).value)
  {
    hide Value, High, Middle, Low, DigitIs;
    if Group(t, [a, b, c]) {
      var w, x, y, z :| GroupIs(t, [a, b, c], w, x, y, z);
      DigitRange(t[0], w);
      DigitRange(t[1], x);
      DigitRange(t[2], y);
      DigitRange(t[3], z);
      NumberOf(w, x, y, z);
      BytesUnique(a, b, c, High(w, x), Middle(x, y), Low(y, z));
    }
    if forall i :: 0 <= i < 4 ==> Value(t[i]).Some? {
      var w, x, y, z := Value(t[0]).value, Value(t[1]).value, Value(t[2]).value, Value(t[3]).value;
      DigitExactly(t[0], w);
      DigitExactly(t[1], x);
      DigitExactly(t[2], y);
      DigitExactly(t[3], z);
      NumberOf(w, x, y, z);
      assert a == High(w, x) && b == Middle(x, y) && c == Low(y, z) ==> GroupIs(t, [a, b, c], w, x, y, z);
    }
  }

  lemma {:induction false} ShortGroup(t: string, p: seq<Byte>)
    requires |t| == 4 && 1 <= |p| <= 2
    ensures Group(t, p)
       <==> Value(t[0]).Some? && Value(t[1]).Some? && t[3] == '='
            && p[0] == High(Value(t[0]).value, Value(t[1]).value)
            && if |p| == 1 then t[2] == '='
               else Value(t[2]).Some? && p[1] == Middle(Value(t[1]).value, Value(t[2]).value)
  {
    hide Value, High, Middle, Low, DigitIs;
    if Group(t, p) {
      var w, x, y, z :| GroupIs(t, p, w, x, y, z);
      DigitRange(t[0], w);
      DigitRange(t[1], x);
      if |p| == 2 {
        DigitRange(t[2], y);
        NumberOf(w, x, y, 0);
        BytesUnique(p[0], p[1], 0, High(w, x), Middle(x, y), 0);
      } else {
        NumberOf(w, x, 0, 0);
      }
    }
    if Value(t[0]).Some? && Value(t[1]).Some? {
      var w, x := Value(t[0]).value, Value(t[1]).value;
      var y := if Value(t[2]).Some? then Value(t[2]).value else 0;
      DigitExactly(t[0], w);
      DigitExactly(t[1], x);
      DigitExactly(t[2], y);
      NumberOf(w, x, y, 0);
      NumberOf(w, x, 0, 0);
      assert t[3] == '=' && p[0] == High(w, x)
             && (if |p| == 1 then t[2] == '=' else Value(t[2]).Some? && p[1] == Middle(x, y)) ==>
             GroupIs(t, p, w, x, y, 0);
    }
  }

  lemma OneGroup(t: string, p: seq<Byte>)
    requires |t| == 4
    ensures Decode(t) == Some(p) <==> Group(t, p)
  {
    NoValue();
    hide Value, High, Middle, Low, Group;
    assert t[4..] == "" && Decode("") == Some([]);
    if |p| == 3 {
      var a, b, c := p[0], p[1], p[2];
      assert p == [a, b, c];
      FullGroup(t, a, b, c);
      if Decode(t).Some? && t[3] != '=' {
        var bytes := Decode(t).value;
        assert bytes == bytes[..3] + [];
        assert bytes == [bytes[0], bytes[1], bytes[2]];
      }
    } else if 1 <= |p| <= 2 {
      assert p == if |p| == 1 then [p[0]] else [p[0], p[1]];
      ShortGroup(t, p);
    } else {
      assert !Group(t, p) by { NoGroup(t, p); }
    }
  }

  lemma NoGroup(t: string, p: seq<Byte>)
    requires |p| == 0 || |p| > 3
    ensures !Group(t, p)
  {
  }

  lemma FirstGroup(t: string, p: seq<Byte>)
    requires |t| > 4
    ensures Decode(t) == Some(p) <==> |p| >= 3 && Group(t[..4], p[..3]) && Decode(t[4..]) == Some(p[3..])
  {
    hide Value, High, Middle, Low, Group;
    var rest := Decode(t[4..]);
    if |p| >= 3 {
      FullGroup(t[..4], p[0], p[1], p[2]);
      assert p[..3] == [p[0], p[1], p[2]];
      assert p == p[..3] + p[3..];
    }
  }

  /** The decoder takes exactly the texts of that form, and gives their bytes. */
  lemma {:induction false} DecodeExactly(t: string, p: seq<Byte>)
    ensures Decode(t) == Some(p) <==> Decodes(t, p)
  {
    if |t| > 4 {
      FirstGroup(t, p);
      if |p| >= 3 { DecodeExactly(t[4..], p[3..]); }
      hide Decode, Group;
    } else if |t| == 4 {
      OneGroup(t, p);
    }
  }
}
