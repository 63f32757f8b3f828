/** Git's raw change records, and the decision which of them may skip the native jobs.

    Source: scripts/ci_macos_scope.py, `raw_changes`, `classify`, `final_gate`. The records are the decoded text; the
    program also keeps only the status and the paths of a change, where this keeps the modes and object ids too. */
module CiScope {
  import opened Options
  import Texts

  datatype Change = Change(oldMode: string, newMode: string, oldOid: string, newOid: string, status: string,
                           paths: seq<string>)

  const NUL := 0 as char
  const ZERO_OID := "0000000000000000000000000000000000000000"
  const REGULAR := {"100644", "100755"}

  predicate Digits(s: string, n: nat) {
    |s| == n && forall k :: 0 <= k < n ==> '0' <= s[k] <= '9'
  }

  predicate Oid(s: string) {
    |s| == 40 && forall k :: 0 <= k < 40 ==> '0' <= s[k] <= '9' || 'a' <= s[k] <= 'f'
  }

  predicate Renamed(status: string) {
    status == "R100" || (|status| == 4 && status[..2] == "R0" && Digits(status[2..], 2))
  }

  function PathCount(status: string): nat {
    if Renamed(status) then 2 else 1
  }

  predicate PathOk(path: string) {
    && path != "" && path[0] != '/' && NUL !in path
    && forall part :: part in Texts.Split(path, '/') ==> part != "" && part != "." && part != ".."
  }

  predicate ModesOk(c: Change) {
    if c.status == "A" then
      c.oldMode == "000000" && c.oldOid == ZERO_OID && c.newMode in REGULAR && c.newOid != ZERO_OID
    else if c.status == "D" then
      c.newMode == "000000" && c.newOid == ZERO_OID && c.oldMode in REGULAR && c.oldOid != ZERO_OID
    else c.oldMode in REGULAR && c.newMode in REGULAR && c.oldOid != ZERO_OID && c.newOid != ZERO_OID
  }

  predicate HeaderOk(c: Change) {
    && Digits(c.oldMode, 6) && Digits(c.newMode, 6) && Oid(c.oldOid) && Oid(c.newOid)
    && (c.status in {"A", "M", "D"} || Renamed(c.status))
  }

  predicate Valid(c: Change) {
    && HeaderOk(c) && ModesOk(c) && |c.paths| == PathCount(c.status)
    && forall k :: 0 <= k < |c.paths| ==> PathOk(c.paths[k])
  }

  // ----- what a change is, in git's own terms -----

  ghost predicate Hex40(oid: string) { |oid| == 40 && forall ch :: ch in oid ==> ch in "0123456789abcdef" }

  /** An object that is there: its id is not forty zeros. */
  ghost predicate Present(mode: string, oid: string) {
    (mode == "100644" || mode == "100755") && Hex40(oid) && exists ch :: ch in oid && ch != '0'
  }

  ghost predicate AbsentBlob(mode: string, oid: string) {
    mode == "000000" && |oid| == 40 && forall ch :: ch in oid ==> ch == '0'
  }

  function Digit(d: int): char
    requires 0 <= d < 10
  {
    "0123456789"[d]
  }

  /** A rename with a similarity of 0 to 100 percent, in three digits. */
  ghost predicate RenameScore(status: string) {
    status == "R100" || exists n :: 0 <= n < 100 && status == ['R', '0', Digit(n / 10), Digit(n % 10)]
  }

  /** A relative path with no empty, `.` or `..` component. */
  ghost predicate GoodPath(path: string) {
    path != "" && '\0' !in path
    && forall before, part, after :: Texts.Between(path, '/', before, part, after) ==> part !in {"", ".", ".."}
  }

  /** An addition, a deletion or a modification of one regular file, or a rename of one. */
  ghost predicate Sound(c: Change) {
    && (forall path :: path in c.paths ==> GoodPath(path))
    && if c.status == "A" then |c.paths| == 1 && AbsentBlob(c.oldMode, c.oldOid) && Present(c.newMode, c.newOid)
       else if c.status == "D" then |c.paths| == 1 && Present(c.oldMode, c.oldOid) && AbsentBlob(c.newMode, c.newOid)
       else
         && Present(c.oldMode, c.oldOid) && Present(c.newMode, c.newOid)
         && ((c.status == "M" && |c.paths| == 1) || (RenameScore(c.status) && |c.paths| == 2))
  }

  lemma RenamedExactly(status: string)
    ensures Renamed(status) <==> RenameScore(status)
  {
    DigitsInOrder();
    if Renamed(status) && status != "R100" {
      var a, b := status[2] as int - '0' as int, status[3] as int - '0' as int;
      assert status[..2] == "R0" && status[2..][0] == status[2] && status[2..][1] == status[3];
      var n := 10 * a + b;
      assert n / 10 == a && n % 10 == b;
      assert status == ['R', '0', Digit(n / 10), Digit(n % 10)];
    }
    if RenameScore(status) && status != "R100" {
      assert status[..2] == "R0";
    }
  }

  lemma DigitsInOrder()
    ensures forall d :: 0 <= d < 10 ==> Digit(d) == ('0' as int + d) as char
  {
  }

  lemma HexExactly(oid: string)
    ensures Oid(oid) <==> Hex40(oid)
  {
    HexDigits();
    assert |oid| == 40 ==> forall k :: 0 <= k < 40 ==> oid[k] in oid;
  }

  lemma HexDigits()
    ensures forall ch: char :: ch in "0123456789abcdef" <==> '0' <= ch <= '9' || 'a' <= ch <= 'f'
  {
    var digits := "0123456789abcdef";
    forall ch: char | '0' <= ch <= '9' ensures ch in digits { assert digits[ch as int - '0' as int] == ch; }
    forall ch: char | 'a' <= ch <= 'f' ensures ch in digits { assert digits[ch as int - 'a' as int + 10] == ch; }
    forall ch: char | ch in digits ensures '0' <= ch <= '9' || 'a' <= ch <= 'f' {
      var k :| 0 <= k < 16 && digits[k] == ch;
    }
  }

  lemma PathExactly(path: string)
    ensures PathOk(path) <==> GoodPath(path)
  {
    hide Texts.Between, Texts.Split;
    forall part | part in Texts.Split(path, '/') ensures exists a, b :: Texts.Between(path, '/', a, part, b) {
      Texts.PartsExactly(path, '/', part);
    }
    forall a, part, b | Texts.Between(path, '/', a, part, b) ensures part in Texts.Split(path, '/') {
      Texts.BetweenIsPart(path, '/', a, part, b);
    }
    if path != "" && path[0] == '/' { LeadingSlash(path); }
  }

  lemma ZeroExactly(oid: string)
    requires |oid| == 40
    ensures oid == ZERO_OID <==> forall ch :: ch in oid ==> ch == '0'
  {
    assert forall k :: 0 <= k < 40 ==> ZERO_OID[k] == '0';
    assert forall k :: 0 <= k < 40 ==> oid[k] in oid;
  }

  lemma BlobExactly(mode: string, oid: string)
    ensures mode in REGULAR && Oid(oid) && oid != ZERO_OID <==> Present(mode, oid)
    ensures mode == "000000" && oid == ZERO_OID <==> AbsentBlob(mode, oid)
    ensures mode == "000000" || mode in REGULAR ==> Digits(mode, 6)
    ensures oid == ZERO_OID ==> Oid(oid)
  {
    HexExactly(oid);
    if |oid| == 40 { ZeroExactly(oid); }
  }

  lemma ValidExactly(c: Change)
    ensures Valid(c) <==> Sound(c)
  {
    BlobExactly(c.oldMode, c.oldOid);
    BlobExactly(c.newMode, c.newOid);
    RenamedExactly(c.status);
    forall k | 0 <= k < |c.paths| ensures PathOk(c.paths[k]) <==> GoodPath(c.paths[k]) { PathExactly(c.paths[k]); }
    assert forall k :: 0 <= k < |c.paths| ==> c.paths[k] in c.paths;
    hide Oid, Digits, Renamed, PathOk, GoodPath, Present, AbsentBlob, RenameScore;
  }

  lemma LeadingSlash(path: string)
    requires path != "" && path[0] == '/'
    ensures Texts.Between(path, '/', "", "", path)
  {
  }

  // ----- the encoding -----

  function Fields(c: Change): seq<string> {
    [":" + c.oldMode, c.newMode, c.oldOid, c.newOid, c.status]
  }

  function Header(c: Change): string {
    Texts.Join(Fields(c), ' ')
  }

  function Records(changes: seq<Change>): seq<string> {
    if changes == [] then [] else [Header(changes[0])] + changes[0].paths + Records(changes[1..])
  }

  /** Each record with its NUL. */
  function Terminated(records: seq<string>): string {
    if records == [] then "" else records[0] + "\0" + Terminated(records[1..])
  }

  function Encode(changes: seq<Change>): string {
    Terminated(Records(changes))
  }

  // ----- the parser -----

  /** The header at the front of a record list, with the paths that follow it. */
  function ParseOne(records: seq<string>): Option<Change>
    requires records != []
  {
    var header := Texts.Split(records[0], ' ');
    if |header| != 5 || header[0] == "" || header[0][0] != ':' || !Digits(header[0][1..], 6)
       || !Digits(header[1], 6)
    then None
    else if !Oid(header[2]) || !Oid(header[3]) || !(header[4] in {"A", "M", "D"} || Renamed(header[4])) then None
    else if |records| < 1 + PathCount(header[4]) then None
    else
      var c := Change(header[0][1..], header[1], header[2], header[3], header[4], records[1..1 + PathCount(header[4])]);
      if (forall k :: 0 <= k < |c.paths| ==> PathOk(c.paths[k])) && ModesOk(c) then Some(c) else None
  }

  lemma StatusText(status: string)
    requires status in {"A", "M", "D"} || Renamed(status)
    ensures ' ' !in status && NUL !in status
  {
    if Renamed(status) && status != "R100" {
      assert status == status[..2] + status[2..];
    }
  }

  lemma FieldsPlain(c: Change)
    requires HeaderOk(c)
    ensures forall k :: 0 <= k < 5 ==> ' ' !in Fields(c)[k] && NUL !in Fields(c)[k]
  {
    StatusText(c.status);
  }

  /** The front of a record list parses to a change exactly when the change is valid and its records stand there. */
  lemma ParseOneExact(records: seq<string>, c: Change)
    requires records != [] && forall k :: 0 <= k < |records| ==> NUL !in records[k]
    ensures ParseOne(records) == Some(c)
            <==> && Valid(c) && |records| >= 1 + |c.paths| && records[0] == Header(c)
                 && records[1..1 + |c.paths|] == c.paths
  {
    var header := Texts.Split(records[0], ' ');
    Texts.JoinSplit(records[0], ' ');
    if ParseOne(records) == Some(c) {
      assert header == Fields(c) by {
        assert header[0] == ":" + c.oldMode;
      }
    }
    if Valid(c) && records[0] == Header(c) {
      FieldsPlain(c);
      Texts.SplitJoin(Fields(c), ' ');
      assert header == Fields(c);
      assert (":" + c.oldMode)[1..] == c.oldMode;
    }
  }

  function Parse(records: seq<string>): Option<seq<Change>> {
    if records == [] then Some([])
    else
      var c := ParseOne(records);
      if c.None? then None else Prepend([c.value], Parse(records[1 + |c.value.paths|..]))
  }

  function Prepend(front: seq<Change>, rest: Option<seq<Change>>): Option<seq<Change>> {
    if rest.None? then None else Some(front + rest.value)
  }

  predicate AllValid(changes: seq<Change>) {
    forall k :: 0 <= k < |changes| ==> Valid(changes[k])
  }

  /** The records of this change stand at the front. */
  predicate Front(records: seq<string>, c: Change) {
    |records| >= 1 + |c.paths| && records[0] == Header(c) && records[1..1 + |c.paths|] == c.paths
  }

  lemma RecordsFront(records: seq<string>, c: Change, more: seq<Change>)
    ensures Records([c] + more) == records <==> Front(records, c) && Records(more) == records[1 + |c.paths|..]
    ensures AllValid([c] + more) <==> Valid(c) && AllValid(more)
  {
    hide Valid, Header;
    var k := 1 + |c.paths|;
    assert ([c] + more)[1..] == more;
    var front := [Header(c)] + c.paths;
    assert Records([c] + more) == front + Records(more);
    if Front(records, c) {
      assert records[..k] == front && records == records[..k] + records[k..];
    }
    if front + Records(more) == records {
      assert records[..k] == front && records[1..k] == front[1..] && records[k..] == Records(more);
    }
    if AllValid([c] + more) {
      assert Valid(([c] + more)[0]);
      forall i | 0 <= i < |more| ensures Valid(more[i]) { assert more[i] == ([c] + more)[i + 1]; }
    }
  }

  lemma OneMore(first: Change, c: Change, rest: Option<seq<Change>>, more: seq<Change>)
    ensures Prepend([first], rest) == Some([c] + more) <==> first == c && rest == Some(more)
  {
    assert ([c] + more)[0] == c && ([c] + more)[1..] == more;
    assert rest.Some? ==> ([first] + rest.value)[0] == first && ([first] + rest.value)[1..] == rest.value;
  }

  /** The parser takes a valid change from the front, and then the rest. */
  lemma ParseFront(records: seq<string>, c: Change, more: seq<Change>)
    requires records != [] && Texts.Free(records, NUL)
    ensures Parse(records) == Some([c] + more)
            <==> Valid(c) && Front(records, c) && Parse(records[1 + |c.paths|..]) == Some(more)
  {
    ParseOneExact(records, c);
    hide Valid, Front, ParseOne;
    if ParseOne(records).Some? {
      var first := ParseOne(records).value;
      var rest := Parse(records[1 + |first.paths|..]);
      hide Parse, Texts.Free;
      assert Prepend([first], rest) == Some([c] + more) <==> first == c && rest == Some(more) by {
        OneMore(first, c, rest, more);
      }
    }
  }

  /** A record list parses to the changes it encodes, and to nothing else. */
  lemma {:induction false} ParseExact(records: seq<string>, changes: seq<Change>)
    requires Texts.Free(records, NUL)
    ensures Parse(records) == Some(changes) <==> AllValid(changes) && Records(changes) == records
    decreases |records|
  {
    hide Valid, ParseOne, Header, AllValid;
    if records == [] || changes == [] {
      EmptyEnds(records, changes);
    } else {
      var c, more := changes[0], changes[1..];
      assert changes == [c] + more;
      hide Parse, Records;
      ParseFront(records, c, more);
      RecordsFront(records, c, more);
      if Front(records, c) {
        ParseExact(records[1 + |c.paths|..], more);
      }
    }
  }

  lemma EmptyEnds(records: seq<string>, changes: seq<Change>)
    requires records == [] || changes == []
    ensures Parse(records) == Some(changes) <==> records == [] && changes == []
    ensures AllValid(changes) && Records(changes) == records <==> records == [] && changes == []
  {
    hide Valid, ParseOne, Header;
    assert changes != [] ==> |Records(changes)| > 0;
  }

  // ----- the text -----

  lemma {:induction false} TerminatedJoin(records: seq<string>)
    requires records != []
    ensures Terminated(records) == Texts.Join(records, NUL) + [NUL]
  {
    if |records| == 1 {
      assert Terminated(records[1..]) == "";
    } else {
      TerminatedJoin(records[1..]);
      var front, tail := records[0] + [NUL], Texts.Join(records[1..], NUL);
      assert front + (tail + [NUL]) == front + tail + [NUL];
    }
  }

  /** What `split` gives without the last NUL are the records whose text this is. */
  lemma TerminatedSplit(diff: string, records: seq<string>)
    requires diff != "" && diff[|diff| - 1] == NUL && records != [] && Texts.Free(records, NUL)
    ensures Terminated(records) == diff <==> Texts.Split(diff[..|diff| - 1], NUL) == records
  {
    var body := diff[..|diff| - 1];
    assert diff == body + [NUL];
    TerminatedJoin(records);
    Texts.JoinSplit(body, NUL);
    Texts.SplitJoin(records, NUL);
    if Terminated(records) == diff {
      var joined := Texts.Join(records, NUL);
      assert (joined + [NUL])[..|joined|] == joined;
    }
  }

  /** The changes are sound, there is at least one, and the text is their encoding. */
  ghost predicate Encodes(changes: seq<Change>, diff: string) {
    changes != [] && (forall c :: c in changes ==> Sound(c)) && Encode(changes) == diff
  }

  lemma AllSound(changes: seq<Change>)
    ensures AllValid(changes) <==> forall c :: c in changes ==> Sound(c)
  {
    hide Valid, Sound;
    forall k | 0 <= k < |changes| ensures Valid(changes[k]) <==> Sound(changes[k]) { ValidExactly(changes[k]); }
    assert forall k :: 0 <= k < |changes| ==> changes[k] in changes;
  }

  lemma {:induction false} RecordsFree(changes: seq<Change>)
    requires AllValid(changes)
    ensures Texts.Free(Records(changes), NUL) && (changes != [] ==> Records(changes) != [])
  {
    if changes != [] {
      var c := changes[0];
      RecordsFree(changes[1..]);
      assert Valid(c);
      HeaderFree(c);
    }
  }

  lemma HeaderFree(c: Change)
    requires HeaderOk(c)
    ensures NUL !in Header(c)
  {
    FieldsPlain(c);
    hide HeaderOk;
    JoinFree(Fields(c), ' ', NUL);
  }

  lemma {:induction false} JoinFree(parts: seq<string>, sep: char, c: char)
    requires parts != [] && Texts.Free(parts, c) && sep != c
    ensures c !in Texts.Join(parts, sep)
  {
    if |parts| > 1 {
      JoinFree(parts[1..], sep, c);
    }
  }

  lemma {:induction false} TerminatedEnds(records: seq<string>)
    requires records != []
    ensures Terminated(records) != "" && Terminated(records)[|Terminated(records)| - 1] == NUL
  {
    TerminatedJoin(records);
  }

  /** Encoding inverts parsing: the program's test and split lead to these changes exactly when the text is theirs. */
  lemma TextExact(diff: string, changes: seq<Change>)
    ensures Encodes(changes, diff) <==> diff != "" && diff[|diff| - 1] == NUL
                                        && Parse(Texts.Split(diff[..|diff| - 1], NUL)) == Some(changes)
  {
    AllSound(changes);
    hide Parse, AllValid, Terminated, Sound;
    if AllValid(changes) && changes != [] {
      RecordsFree(changes);
      TerminatedEnds(Records(changes));
    }
    if diff != "" && diff[|diff| - 1] == NUL {
      var records := Texts.Split(diff[..|diff| - 1], NUL);
      ParseExact(records, changes);
      TerminatedSplit(diff, records);
      if AllValid(changes) && changes != [] {
        TerminatedSplit(diff, Records(changes));
      }
      assert changes == [] ==> Records(changes) == [];
    }
  }

  /** The program's own reading of a text: its last NUL test, its split, and its loop. */
  method RawChanges(diff: string) returns (r: Option<seq<Change>>)
    ensures forall changes :: r == Some(changes) <==> Encodes(changes, diff)
  {
    forall changes ensures Encodes(changes, diff) <==> diff != "" && diff[|diff| - 1] == NUL
                                                       && Parse(Texts.Split(diff[..|diff| - 1], NUL)) == Some(changes) {
      TextExact(diff, changes);
    }
    hide Encodes, Parse;
    if diff == "" || diff[|diff| - 1] != NUL {
      return None;
    }
    r := ParseRecords(Texts.Split(diff[..|diff| - 1], NUL));
  }

  /** The index-driven loop over the records. */
  method ParseRecords(records: seq<string>) returns (r: Option<seq<Change>>)
    ensures r == Parse(records)
  {
    var changes, index := [], 0;
    ParseAll(records);
    hide Parse, ParseOne, Prepend;
    while index < |records|
      invariant 0 <= index <= |records|
      invariant Parse(records) == Prepend(changes, Parse(records[index..]))
    {
      var rest := records[index..];
      var one := ParseOne(rest);
      ParseStep(rest);
      PrependNone(changes);
      if one == None {
        return None;
      }
      ParseOneSize(rest);
      var taken := 1 + |one.value.paths|;
      assert rest[taken..] == records[index + taken..];
      PrependTwice(changes, [one.value], Parse(rest[taken..]));
      changes := changes + [one.value];
      index := index + taken;
    }
    ParseEnd(records[index..], changes);
    return Some(changes);
  }

  lemma ParseAll(records: seq<string>)
    ensures Parse(records) == Prepend([], Parse(records[0..]))
  {
    assert records[0..] == records;
    var whole := Parse(records);
    assert whole.Some? ==> [] + whole.value == whole.value;
  }

  lemma PrependNone(changes: seq<Change>)
    ensures Prepend(changes, None) == None
  {
  }

  lemma ParseStep(records: seq<string>)
    requires records != []
    ensures var c := ParseOne(records);
      Parse(records) == if c.None? || |records| < 1 + |c.value.paths| then None
                        else Prepend([c.value], Parse(records[1 + |c.value.paths|..]))
  {
  }

  lemma ParseOneSize(records: seq<string>)
    requires records != [] && ParseOne(records).Some?
    ensures |records| >= 1 + |ParseOne(records).value.paths|
  {
  }

  lemma ParseEnd(records: seq<string>, changes: seq<Change>)
    requires records == []
    ensures Prepend(changes, Parse(records)) == Some(changes)
  {
    assert changes + [] == changes;
  }

  lemma PrependTwice(a: seq<Change>, b: seq<Change>, rest: Option<seq<Change>>)
    ensures Prepend(a, Prepend(b, rest)) == Prepend(a + b, rest)
  {
    if rest.Some? {
      assert a + (b + rest.value) == (a + b) + rest.value;
    }
  }

  // ----- classification -----

  datatype Scope = Full | Docs | WindowsOnly

  const PROSE := {"README.md", "docs/DO_NOT_DISTURB.md", "docs/NOTIFICATION_TYPES.md"}
  const WINDOWS := {
    ".github/workflows/navigation-windows-appsdk-build.yml",
    "tests/integration/windows_appsdk_build/README.md",
    "tests/integration/windows_appsdk_build/SDKContract.cpp",
    "tests/integration/windows_appsdk_build/SDKContract.vcxproj",
    "tests/integration/windows_appsdk_build/packages.lock.json"
  }

  predicate ProseEdit(c: Change) {
    c.status == "M" && c.paths != [] && c.paths[0] in PROSE
  }

  predicate WithinWindows(c: Change) {
    forall path :: path in c.paths ==> path in WINDOWS
  }

  // ----- what the two lists mean -----

  ghost predicate Document(path: string) {
    path == "README.md" || path == "docs/DO_NOT_DISTURB.md" || path == "docs/NOTIFICATION_TYPES.md"
  }

  ghost predicate WindowsBuildOnly(path: string) {
    || path == ".github/workflows/navigation-windows-appsdk-build.yml"
    || path == "tests/integration/windows_appsdk_build/README.md"
    || path == "tests/integration/windows_appsdk_build/SDKContract.cpp"
    || path == "tests/integration/windows_appsdk_build/SDKContract.vcxproj"
    || path == "tests/integration/windows_appsdk_build/packages.lock.json"
  }

  /** Modifies documents, and nothing else. */
  ghost predicate EditsDocuments(c: Change) { c.status == "M" && forall path :: path in c.paths ==> Document(path) }

  ghost predicate OnWindowsOnly(c: Change) { forall path :: path in c.paths ==> WindowsBuildOnly(path) }

  /** The text is a valid record of changes all of which are of one kind. */
  ghost predicate All(diff: string, kind: Change -> bool) {
    exists cs :: Encodes(cs, diff) && forall c :: c in cs ==> kind(c)
  }

  lemma OnePath(c: Change)
    requires Sound(c) && c.status == "M"
    ensures c.paths == [c.paths[0]]
  {
    assert !RenameScore("M");
  }

  lemma KindsExactly(c: Change)
    requires Sound(c)
    ensures ProseEdit(c) <==> EditsDocuments(c)
    ensures WithinWindows(c) <==> OnWindowsOnly(c)
    ensures !(EditsDocuments(c) && OnWindowsOnly(c))
  {
    if c.status == "M" {
      OnePath(c);
      ListsDisjoint(c.paths[0]);
      assert c.paths[0] in c.paths;
    }
    hide Sound, Document, WindowsBuildOnly;
    forall path | path in c.paths
      ensures (path in PROSE <==> Document(path)) && (path in WINDOWS <==> WindowsBuildOnly(path))
    {
      ListsExactly(path);
    }
  }

  lemma ListsDisjoint(path: string)
    ensures path !in PROSE || path !in WINDOWS
  {
  }

  lemma ListsExactly(path: string)
    ensures path in PROSE <==> Document(path)
    ensures path in WINDOWS <==> WindowsBuildOnly(path)
  {
  }

  lemma ReadOnce(r: Option<seq<Change>>, diff: string, kind: Change -> bool)
    requires forall cs :: r == Some(cs) <==> Encodes(cs, diff)
    ensures All(diff, kind) <==> r.Some? && forall c :: c in r.value ==> kind(c)
  {
    hide Encodes;
    if r.Some? { assert Encodes(r.value, diff); }
  }

  /** `draft` is the draft flag of a complete, supported pull request identity; None when there is none. Docs and
      windows-only are for valid records that name nothing off their list; everything else is full. */
  method Classify(draft: Option<bool>, diff: string) returns (mode: Scope)
    ensures mode == Docs <==> draft.Some? && All(diff, c => EditsDocuments(c))
    ensures mode == WindowsOnly <==> draft == Some(true) && All(diff, c => OnWindowsOnly(c))
  {
    var changes := RawChanges(diff);
    ReadOnce(changes, diff, c => EditsDocuments(c));
    ReadOnce(changes, diff, c => OnWindowsOnly(c));
    ghost var none := changes.None?;
    if !none { KindsApart(changes.value, diff); }
    hide ProseEdit, WithinWindows, EditsDocuments, OnWindowsOnly, Encodes, All;
    if draft == None || changes == None {
      return Full;
    }
    if forall c :: c in changes.value ==> ProseEdit(c) {
      return Docs;
    }
    if draft == Some(true) && forall c :: c in changes.value ==> WithinWindows(c) {
      return WindowsOnly;
    }
    return Full;
  }

  lemma KindsApart(changes: seq<Change>, diff: string)
    requires Encodes(changes, diff)
    ensures (forall c :: c in changes ==> ProseEdit(c)) <==> forall c :: c in changes ==> EditsDocuments(c)
    ensures (forall c :: c in changes ==> WithinWindows(c)) <==> forall c :: c in changes ==> OnWindowsOnly(c)
    ensures !((forall c :: c in changes ==> EditsDocuments(c)) && forall c :: c in changes ==> OnWindowsOnly(c))
  {
    hide ProseEdit, WithinWindows, EditsDocuments, OnWindowsOnly, Sound, Encode;
    assert changes[0] in changes;
    forall c | c in changes
      ensures (ProseEdit(c) <==> EditsDocuments(c)) && (WithinWindows(c) <==> OnWindowsOnly(c))
      ensures !(EditsDocuments(c) && OnWindowsOnly(c))
    {
      KindsExactly(c);
    }
    if forall c :: c in changes ==> EditsDocuments(c) { assert !OnWindowsOnly(changes[0]); }
  }

  // ----- the final gate -----

  datatype Gate = NotFull | UnknownJobs | UnknownNeeds | ScopeFailed | Unsuccessful(missing: seq<string>) | Passed

  /** The jobs that did not succeed, in the order given. A job's result is None when its entry is no dictionary. */
  function Missing(needs: map<string, Option<string>>, jobs: seq<string>): (missing: seq<string>)
    ensures forall job :: job in missing <==> job in jobs && !(job in needs && needs[job] == Some("success"))
    ensures missing == [] || missing[0] in missing
  {
    if jobs == [] then []
    else
      (if jobs[0] in needs && needs[jobs[0]] == Some("success") then [] else [jobs[0]]) + Missing(needs, jobs[1..])
  }

  /** The scope job and the contract's own. */
  function Needed(jobs: seq<string>): set<string> { {"scope"} + set job | job in jobs }

  predicate KnownJobs(jobs: seq<string>) {
    jobs == ["test", "swift-test"] || jobs == ["recovery"]
  }

  /** `needs` is None when it is no dictionary. */
  function FinalGate(mode: string, needs: Option<map<string, Option<string>>>, jobs: seq<string>): Gate {
    if mode != "full" then NotFull
    else if !KnownJobs(jobs) then UnknownJobs
    else if needs.None? || needs.value.Keys != Needed(jobs) then UnknownNeeds
    else if needs.value["scope"] != Some("success") then ScopeFailed
    else
      var missing := Missing(needs.value, jobs);
      if missing != [] then Unsuccessful(missing) else Passed
  }

  /** The one evidence that passes, for either contract: its jobs and the scope job, all successful, nothing else. */
  ghost predicate Proven(needs: map<string, Option<string>>, jobs: seq<string>) {
    || (jobs == ["test", "swift-test"]
        && needs == map["scope" := Some("success"), "test" := Some("success"), "swift-test" := Some("success")])
    || (jobs == ["recovery"] && needs == map["scope" := Some("success"), "recovery" := Some("success")])
  }

  lemma ProvenExactly(needs: map<string, Option<string>>, jobs: seq<string>)
    ensures Proven(needs, jobs)
       <==> KnownJobs(jobs) && needs.Keys == Needed(jobs)
            && forall name :: name in needs ==> needs[name] == Some("success")
  {
    assert jobs == ["recovery"] ==> Needed(jobs) == {"scope", "recovery"};
    assert jobs == ["test", "swift-test"] ==> Needed(jobs) == {"scope", "test", "swift-test"};
  }

  /** For each contract a single dictionary passes, and only in mode full: a job missing, added, skipped or failed
      never does, and no other mode does whatever the evidence. */
  lemma GatePassesExactly(mode: string, needs: Option<map<string, Option<string>>>, jobs: seq<string>)
    ensures FinalGate(mode, needs, jobs) == Passed <==> mode == "full" && needs.Some? && Proven(needs.value, jobs)
  {
    if mode == "full" && needs.Some? {
      ProvenExactly(needs.value, jobs);
      hide Proven, KnownJobs;
      assert "scope" in Needed(jobs);
      if FinalGate(mode, needs, jobs) == Passed {
        forall name | name in needs.value ensures needs.value[name] == Some("success") {
          if name != "scope" { assert name in jobs && name !in Missing(needs.value, jobs); }
        }
      }
      if Proven(needs.value, jobs) {
        assert forall job :: job in jobs ==> job in needs.value;
      }
    }
  }

  /** The mode `classify` prints and the gate reads. */
  function ModeName(scope: Scope): string {
    match scope
    case Full => "full"
    case Docs => "docs"
    case WindowsOnly => "windows-only"
  }

  /** A change classified as anything but full never passes the gate, even with every native job successful. */
  lemma SkippedNeverPasses(scope: Scope, needs: Option<map<string, Option<string>>>, jobs: seq<string>)
    ensures FinalGate(ModeName(scope), needs, jobs) == Passed
            <==> scope == Full && needs.Some? && Proven(needs.value, jobs)
  {
    hide Proven;
    GatePassesExactly(ModeName(scope), needs, jobs);
  }
}
