/** Cutting a text at a separator, as Python's `split` with one character does, and putting it together again. */
module Texts {
  function Split(s: string, sep: char): (parts: seq<string>)
    ensures parts != [] && forall k :: 0 <= k < |parts| ==> sep !in parts[k]
  {
    if s == "" then [""]
    else
      var rest := Split(s[1..], sep);
      if s[0] == sep then [""] + rest else [[s[0]] + rest[0]] + rest[1..]
  }

  function Join(parts: seq<string>, sep: char): string
    requires parts != []
  {
    if |parts| == 1 then parts[0] else parts[0] + [sep] + Join(parts[1..], sep)
  }

  predicate Free(parts: seq<string>, sep: char) {
    forall k :: 0 <= k < |parts| ==> sep !in parts[k]
  }

  lemma {:induction false} JoinSplit(s: string, sep: char)
    ensures Join(Split(s, sep), sep) == s
  {
    if s != "" {
      JoinSplit(s[1..], sep);
      var rest := Split(s[1..], sep);
      assert s == [s[0]] + s[1..];
      if s[0] == sep {
        assert ([""] + rest)[1..] == rest;
        hide Split;
        assert "" + [sep] + Join(rest, sep) == s;
      } else {
        JoinFront(s[0], rest, sep);
      }
    }
  }

  lemma JoinFront(c: char, rest: seq<string>, sep: char)
    requires rest != []
    ensures Join([[c] + rest[0]] + rest[1..], sep) == [c] + Join(rest, sep)
  {
    var parts := [[c] + rest[0]] + rest[1..];
    assert parts[1..] == rest[1..];
    if |rest| > 1 {
      var tail := Join(rest[1..], sep);
      hide Join;
      assert [c] + rest[0] + [sep] + tail == [c] + (rest[0] + [sep] + tail);
    }
  }

  lemma {:induction false} SplitPlain(part: string, sep: char)
    requires sep !in part
    ensures Split(part, sep) == [part]
  {
    if part != "" {
      SplitPlain(part[1..], sep);
      assert [part[0]] + part[1..] == part;
    }
  }

  lemma {:induction false} SplitPrepend(part: string, rest: string, sep: char)
    requires sep !in part
    ensures Split(part + [sep] + rest, sep) == [part] + Split(rest, sep)
  {
    var s := part + [sep] + rest;
    if part == "" {
      assert s[1..] == rest;
    } else {
      assert s[1..] == part[1..] + [sep] + rest;
      SplitPrepend(part[1..], rest, sep);
      assert [part[0]] + part[1..] == part;
    }
  }

  lemma {:induction false} SplitJoin(parts: seq<string>, sep: char)
    requires parts != [] && Free(parts, sep)
    ensures Split(Join(parts, sep), sep) == parts
  {
    if |parts| == 1 {
      SplitPlain(parts[0], sep);
    } else {
      SplitJoin(parts[1..], sep);
      SplitPrepend(parts[0], Join(parts[1..], sep), sep);
    }
  }

  // ----- the parts, without cutting -----

  /** `part` lies between two separators of `s`, or between one and an end, or is all of it. */
  ghost predicate Between(s: string, sep: char, before: string, part: string, after: string) {
    && s == before + part + after && sep !in part
    && (before == "" || before[|before| - 1] == sep) && (after == "" || after[0] == sep)
  }

  function Grow(c: char, sep: char, parts: seq<string>): seq<string>
    requires parts != []
  {
    if c == sep then [""] + parts else [[c] + parts[0]] + parts[1..]
  }

  lemma SplitStep(s: string, sep: char)
    requires s != ""
    ensures Split(s, sep) == Grow(s[0], sep, Split(s[1..], sep))
  {
  }

  lemma GrowFront(c: char, sep: char, front: seq<string>, rest: seq<string>)
    requires front != []
    ensures Grow(c, sep, front + rest) == Grow(c, sep, front) + rest
  {
  }

  lemma {:induction false} SplitAround(front: string, rest: string, sep: char)
    ensures Split(front + [sep] + rest, sep) == Split(front, sep) + Split(rest, sep)
  {
    hide Split, Grow;
    var s := front + [sep] + rest;
    if front == "" {
      assert s == "" + [sep] + rest;
      SplitPrepend("", rest, sep);
      SplitPlain("", sep);
    } else {
      assert s[1..] == front[1..] + [sep] + rest;
      SplitAround(front[1..], rest, sep);
      SplitStep(s, sep);
      SplitStep(front, sep);
      GrowFront(front[0], sep, Split(front[1..], sep), Split(rest, sep));
    }
  }

  lemma {:induction false} JoinParts(front: seq<string>, rest: seq<string>, sep: char)
    requires front != [] && rest != []
    ensures Join(front + rest, sep) == Join(front, sep) + [sep] + Join(rest, sep)
  {
    var all := front + rest;
    if |front| == 1 {
      assert all[1..] == rest;
    } else {
      assert all[1..] == front[1..] + rest;
      JoinParts(front[1..], rest, sep);
      var head, tail := Join(front[1..], sep), Join(rest, sep);
      hide Join;
      assert front[0] + [sep] + (head + [sep] + tail) == front[0] + [sep] + head + [sep] + tail;
    }
  }

  lemma FrontJoined(parts: seq<string>, sep: char, k: nat)
    requires k < |parts|
    ensures Join(parts, sep) == (if k == 0 then "" else Join(parts[..k], sep) + [sep]) + Join(parts[k..], sep)
  {
    assert parts[..k] + parts[k..] == parts;
    if k > 0 { JoinParts(parts[..k], parts[k..], sep); } else { assert parts[k..] == parts; }
  }

  lemma BackJoined(parts: seq<string>, sep: char, k: nat)
    requires k < |parts|
    ensures Join(parts[k..], sep) == parts[k] + if k == |parts| - 1 then "" else [sep] + Join(parts[k + 1..], sep)
  {
    var back := parts[k..];
    assert back[1..] == parts[k + 1..];
    if k < |parts| - 1 {
      var rest := Join(parts[k + 1..], sep);
      hide Join;
      assert parts[k] + [sep] + rest == parts[k] + ([sep] + rest);
    }
  }

  lemma PartBetween(s: string, sep: char, k: nat) returns (before: string, after: string)
    requires k < |Split(s, sep)|
    ensures Between(s, sep, before, Split(s, sep)[k], after)
  {
    hide Join, Split;
    var parts := Split(s, sep);
    JoinSplit(s, sep);
    FrontJoined(parts, sep, k);
    BackJoined(parts, sep, k);
    before := if k == 0 then "" else Join(parts[..k], sep) + [sep];
    after := if k == |parts| - 1 then "" else [sep] + Join(parts[k + 1..], sep);
    assert s == before + parts[k] + after;
  }

  lemma PartLeads(part: string, sep: char, after: string)
    requires sep !in part && (after == "" || after[0] == sep)
    ensures Split(part + after, sep)[0] == part
  {
    SplitPlain(part, sep);
    if after != "" {
      assert part + after == part + [sep] + after[1..];
      SplitPrepend(part, after[1..], sep);
    } else {
      assert part + after == part;
    }
  }

  lemma BetweenIsPart(s: string, sep: char, before: string, part: string, after: string)
    requires Between(s, sep, before, part, after)
    ensures part in Split(s, sep)
  {
    hide Split;
    var tail := part + after;
    PartLeads(part, sep, after);
    assert part in Split(tail, sep);
    if before != "" {
      var front := before[..|before| - 1];
      assert s == front + [sep] + tail;
      SplitAround(front, tail, sep);
    } else {
      assert s == tail;
    }
  }

  /** The parts of a text are what lies between its separators. */
  lemma PartsExactly(s: string, sep: char, part: string)
    ensures part in Split(s, sep) <==> exists before, after :: Between(s, sep, before, part, after)
  {
    hide Between, Split;
    if part in Split(s, sep) {
      var k :| 0 <= k < |Split(s, sep)| && Split(s, sep)[k] == part;
      var before, after := PartBetween(s, sep, k);
    }
    forall before, after | Between(s, sep, before, part, after) ensures part in Split(s, sep) {
      BetweenIsPart(s, sep, before, part, after);
    }
  }

  lemma FrontLeads(s: string, sep: char, d: nat)
    requires 0 < d < |Split(s, sep)|
    ensures Join(Split(s, sep)[..d], sep) + [sep] <= s
  {
    var parts := Split(s, sep);
    JoinSplit(s, sep);
    JoinParts(parts[..d], parts[d..], sep);
    assert parts[..d] + parts[d..] == parts;
  }

  /** Joining some of the first parts, but not all, gives what stands before one of the separators. */
  lemma PrefixExactly(s: string, sep: char, front: string)
    ensures (exists d :: 0 < d < |Split(s, sep)| && Join(Split(s, sep)[..d], sep) == front) <==> front + [sep] <= s
  {
    var parts := Split(s, sep);
    if front + [sep] <= s {
      var rest := s[|front| + 1..];
      assert s == front + [sep] + rest;
      SplitAround(front, rest, sep);
      JoinSplit(front, sep);
      assert parts[..|Split(front, sep)|] == Split(front, sep);
    }
    forall d | 0 < d < |parts| && Join(parts[..d], sep) == front ensures front + [sep] <= s {
      FrontLeads(s, sep, d);
    }
  }
}
