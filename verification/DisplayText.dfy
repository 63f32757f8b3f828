/** Text admission of opencode-plugin/display.ts. A text is a sequence of code points; a lone surrogate is
    one of them, as the regular expressions with the `u` flag see it. */
module DisplayText {
  type Text = seq<nat>

  function Utf8Width(c: nat): nat {
    if c < 0x80 then 1 else if c < 0x800 then 2 else if c < 0x1_0000 then 3 else 4
  }

  function ByteCount(s: Text): nat { if s == [] then 0 else Utf8Width(s[0]) + ByteCount(s[1..]) }

  predicate IsSpace(c: nat) {
    9 <= c <= 13 || c in {32, 0xa0, 0x1680, 0x2028, 0x2029, 0x202f, 0x205f, 0x3000, 0xfeff} || 0x2000 <= c <= 0x200a
  }

  predicate IsBarred(c: nat) {
    c <= 8 || c == 11 || c == 12 || 14 <= c <= 0x1f || 0x7f <= c <= 0x9f || 0xd800 <= c <= 0xdfff
  }

  predicate ValidID(s: Text) {
    0 < ByteCount(s) <= 256 && forall i :: 0 <= i < |s| ==> s[i] > 0x1f && s[i] != 0x7f
  }

  function TrimStart(s: Text): Text { if s != [] && IsSpace(s[0]) then TrimStart(s[1..]) else s }

  function TrimEnd(s: Text): Text { if s != [] && IsSpace(s[|s| - 1]) then TrimEnd(s[..|s| - 1]) else s }

  /** Every maximal run of white space becomes one space. */
  function Collapse(s: Text): Text {
    if s == [] then []
    else if !IsSpace(s[0]) then [s[0]] + Collapse(s[1..])
    else if |s| > 1 && IsSpace(s[1]) then Collapse(s[1..])
    else [32] + Collapse(s[1..])
  }

  function CleanText(s: Text, limit: nat): Text {
    if ByteCount(s) > limit || exists i :: 0 <= i < |s| && IsBarred(s[i]) then []
    else Collapse(TrimEnd(TrimStart(s)))
  }

  // ----- what cleaning means -----

  /** The words of a text: its maximal runs of other characters, in order. */
  function Words(s: Text): seq<Text> {
    if s == [] then []
    else if IsSpace(s[0]) then Words(s[1..])
    else if |s| == 1 || IsSpace(s[1]) then [[s[0]]] + Words(s[1..])
    else
      var rest := Words(s[1..]);
      if rest == [] then [[s[0]]] else [[s[0]] + rest[0]] + rest[1..]
  }

  /** Single spaces only, and none at either end. */
  predicate Tidy(s: Text) {
    && (forall i :: 0 <= i < |s| && IsSpace(s[i]) ==> s[i] == 32)
    && (forall i :: 0 <= i < |s| - 1 ==> !(IsSpace(s[i]) && IsSpace(s[i + 1])))
    && (s != [] ==> !IsSpace(s[0]) && !IsSpace(s[|s| - 1]))
  }

  lemma {:induction false} TrimStartWords(s: Text)
    ensures Words(TrimStart(s)) == Words(s)
    ensures TrimStart(s) != [] ==> !IsSpace(TrimStart(s)[0])
    ensures |TrimStart(s)| <= |s| && TrimStart(s) == s[|s| - |TrimStart(s)|..]
  {
    if s != [] && IsSpace(s[0]) { TrimStartWords(s[1..]); }
  }

  lemma {:induction false} LastSpaceWords(s: Text)
    requires s != [] && IsSpace(s[|s| - 1])
    ensures Words(s[..|s| - 1]) == Words(s)
  {
    if |s| > 1 {
      LastSpaceWords(s[1..]);
      assert s[1..][..|s| - 2] == s[..|s| - 1][1..];
    }
  }

  lemma {:induction false} TrimEndWords(s: Text)
    ensures Words(TrimEnd(s)) == Words(s) && TrimEnd(s) <= s
    ensures TrimEnd(s) != [] ==> !IsSpace(TrimEnd(s)[|TrimEnd(s)| - 1])
  {
    if s != [] && IsSpace(s[|s| - 1]) {
      LastSpaceWords(s);
      TrimEndWords(s[..|s| - 1]);
    }
  }

  lemma {:induction false} CollapseWords(s: Text)
    ensures Words(Collapse(s)) == Words(s)
    ensures s != [] ==> Collapse(s) != [] && IsSpace(Collapse(s)[0]) == IsSpace(s[0])
  {
    if s != [] {
      CollapseWords(s[1..]);
      if !IsSpace(s[0]) || |s| == 1 || !IsSpace(s[1]) { assert Collapse(s)[1..] == Collapse(s[1..]); }
    }
  }

  lemma {:induction false} CollapseTidy(s: Text)
    ensures var t := Collapse(s);
      && (forall i :: 0 <= i < |t| && IsSpace(t[i]) ==> t[i] == 32)
      && (forall i :: 0 <= i < |t| - 1 ==> !(IsSpace(t[i]) && IsSpace(t[i + 1])))
      && (forall i :: 0 <= i < |t| ==> t[i] == 32 || t[i] in s)
      && (s != [] ==> t != [] && IsSpace(t[0]) == IsSpace(s[0]) && IsSpace(t[|t| - 1]) == IsSpace(s[|s| - 1]))
  {
    if s != [] { CollapseTidy(s[1..]); }
  }

  lemma {:induction false} TidyIsFixed(t: Text)
    requires (forall i :: 0 <= i < |t| && IsSpace(t[i]) ==> t[i] == 32)
    requires forall i :: 0 <= i < |t| - 1 ==> !(IsSpace(t[i]) && IsSpace(t[i + 1]))
    ensures Collapse(t) == t
  {
    if t != [] {
      TidyIsFixed(t[1..]);
      assert t == [t[0]] + t[1..];
    }
  }

  lemma {:induction false} BytesSplit(a: Text, b: Text)
    ensures ByteCount(a + b) == ByteCount(a) + ByteCount(b)
  {
    if a == [] {
      assert a + b == b;
    } else {
      assert (a + b)[1..] == a[1..] + b;
      BytesSplit(a[1..], b);
    }
  }

  lemma {:induction false} CollapseBytes(s: Text)
    ensures ByteCount(Collapse(s)) <= ByteCount(s)
  {
    if s != [] {
      CollapseBytes(s[1..]);
      if !IsSpace(s[0]) || |s| == 1 || !IsSpace(s[1]) { assert Collapse(s)[1..] == Collapse(s[1..]); }
    }
  }

  lemma TrimmedWords(s: Text)
    ensures var b := TrimEnd(TrimStart(s));
      && Words(b) == Words(s) && ByteCount(b) <= ByteCount(s)
      && (b != [] ==> !IsSpace(b[0]) && !IsSpace(b[|b| - 1]))
      && forall c :: c in b ==> c in s
  {
    hide Words, IsSpace;
    var a := TrimStart(s);
    var b := TrimEnd(a);
    TrimStartWords(s);
    TrimEndWords(a);
    var n := |s| - |a|;
    assert s == s[..n] + a && a == b + a[|b|..];
    BytesSplit(s[..n], a);
    BytesSplit(b, a[|b|..]);
    forall c | c in b ensures c in s { assert c in a; }
  }

  lemma NoWords()
    ensures ByteCount([]) == 0 && Collapse([]) == []
  {
  }

  /** The UTF-8 bytes of a code point, section 3 of RFC 3629; a lone surrogate is written as U+FFFD. */
  function Utf8Of(c: nat): seq<int> {
    if c <= 0x7f then [c]
    else if c <= 0x7ff then [0xc0 + c / 64, 0x80 + c % 64]
    else if 0xd800 <= c <= 0xdfff then [0xef, 0xbf, 0xbd]
    else if c <= 0xffff then [0xe0 + c / 4096, 0x80 + c / 64 % 64, 0x80 + c % 64]
    else [0xf0 + c / 262144, 0x80 + c / 4096 % 64, 0x80 + c / 64 % 64, 0x80 + c % 64]
  }

  function Utf8(s: Text): seq<int> { if s == [] then [] else Utf8Of(s[0]) + Utf8(s[1..]) }

  /** Sizes are those of the UTF-8 encoding. */
  lemma {:induction false} BytesExactly(s: Text)
    ensures ByteCount(s) == |Utf8(s)|
  {
    if s != [] { BytesExactly(s[1..]); }
  }

  ghost predicate Admitted(s: Text, limit: nat) {
    |Utf8(s)| <= limit
    && forall c :: c in s ==> !((c < 32 && c !in {9, 10, 13}) || 127 <= c < 160 || 55296 <= c < 57344)
  }

  lemma AdmittedExactly(s: Text, limit: nat)
    ensures Admitted(s, limit) <==> !(ByteCount(s) > limit || exists i :: 0 <= i < |s| && IsBarred(s[i]))
  {
    hide ByteCount, Utf8;
    BytesExactly(s);
    assert forall i :: 0 <= i < |s| ==> s[i] in s;
  }

  /** Admitted text keeps its words, in order; only their spacing changes. Any other text becomes empty. */
  lemma CleanKeepsWords(s: Text, limit: nat)
    ensures var t := CleanText(s, limit);
      && Tidy(t) && ByteCount(t) <= limit && (forall i :: 0 <= i < |t| ==> !IsBarred(t[i]))
      && if Admitted(s, limit) then Words(t) == Words(s) else t == []
  {
    hide Words, ByteCount, Collapse, Admitted, IsSpace;
    AdmittedExactly(s, limit);
    NoWords();
    if Admitted(s, limit) {
      var b := TrimEnd(TrimStart(s));
      TrimmedWords(s);
      CollapseWords(b);
      CollapseTidy(b);
      CollapseBytes(b);
    }
  }

  /** Cleaning twice is cleaning once. */
  lemma CleanIsIdempotent(s: Text, limit: nat)
    ensures CleanText(CleanText(s, limit), limit) == CleanText(s, limit)
  {
    CleanKeepsWords(s, limit);
    TidyIsFixed(CleanText(s, limit));
  }

  // ----- what the tests on characters and sizes mean -----

  /** An id has 1 to 256 bytes and no control character. */
  ghost predicate SoundID(s: Text) {
    1 <= |Utf8(s)| <= 256 && forall c :: c in s ==> c >= 32 && c != 127
  }

  lemma IDExactly(s: Text)
    ensures ValidID(s) <==> SoundID(s)
  {
    BytesExactly(s);
    hide ByteCount, Utf8;
    if ValidID(s) {
      forall c | c in s ensures c >= 32 && c != 127 {
        var i :| 0 <= i < |s| && s[i] == c;
      }
    }
    assert forall i :: 0 <= i < |s| ==> s[i] in s;
  }

  /** White space is what JavaScript's `\s` matches, character by character; control characters but tab, line feed and
      carriage return are barred, and so are surrogates. */
  lemma CharactersExactly(c: nat)
    ensures IsSpace(c) <==> c in {
      9, 10, 11, 12, 13, 32, 160, 5760, 8192, 8193, 8194, 8195, 8196, 8197, 8198, 8199, 8200, 8201, 8202,
      8232, 8233, 8239, 8287, 12288, 65279
    }
    ensures IsBarred(c) <==> (c < 32 && c !in {9, 10, 13}) || 127 <= c < 160 || 55296 <= c < 57344
  {
  }
}
