/** Validating an archive before anything of it is written, and writing it out.

    Source: scripts/navigation-linux-handoff-runtime-stage.py, `validated_tree` and `stage_runtime_archives`. The tar
    reader's result is the list of members; `read` is what its stream gives for a regular member. */
module RuntimeStage {
  import opened Options
  import opened RuntimePaths

  type Bytes = seq<int>

  datatype Kind = Directory | Regular | Other

  datatype Member = Member(name: string, kind: Kind, size: int, read: Bytes, executable: bool)

  /** `content` is None for a directory. */
  datatype Entry = Entry(content: Option<Bytes>, executable: bool)

  const ENTRIES: nat := 4096
  const MEMBER_BYTES: int := 16 * 1024 * 1024
  const LIMIT: int := 64 * 1024 * 1024

  // ----- validation -----

  /** A leading './' goes, and '.' is the archive's root. */
  function Normal(name: string): string {
    var bare := if |name| >= 2 && name[..2] == "./" then name[2..] else name;
    if bare == "." then "" else bare
  }

  predicate Canonical(name: string) {
    name == "" || ('\\' !in name && Plain(Split(name)))
  }

  predicate MemberOk(m: Member) {
    && m.kind != Other && Canonical(Normal(m.name)) && (Normal(m.name) == "" ==> m.kind == Directory)
    && 0 <= m.size <= MEMBER_BYTES && (m.kind == Directory ==> m.size == 0)
        && (m.kind == Regular ==> |m.read| == m.size)
  }

  function Total(members: seq<Member>): int {
    if members == [] then 0 else Total(members[..|members| - 1]) + members[|members| - 1].size
  }

  function EntryOf(m: Member): Entry {
    Entry(if m.kind == Regular then Some(m.read) else None, m.executable)
  }

  /** The name of the ancestor d levels below the root. */
  function Ancestor(name: string, d: nat): string
    requires 0 < d < |Split(name)|
  {
    Join(Split(name)[..d])
  }

  predicate FileAt(entries: map<string, Entry>, name: string) {
    name in entries && entries[name].content.Some?
  }

  predicate NoFileAbove(entries: map<string, Entry>, name: string) {
    forall d: nat :: 0 < d < |Split(name)| ==> !FileAt(entries, Ancestor(name, d))
  }

  /** The dictionary holds each member under its own name. */
  predicate Holds(entries: map<string, Entry>, members: seq<Member>) {
    && (forall k :: 0 <= k < |members| ==> Normal(members[k].name) in entries
                                           && entries[Normal(members[k].name)] == EntryOf(members[k]))
    && forall name :: name in entries ==> exists k :: 0 <= k < |members| && Normal(members[k].name) == name
  }

  predicate DistinctNames(members: seq<Member>) {
    forall j, k :: 0 <= j < k < |members| ==> Normal(members[j].name) != Normal(members[k].name)
  }

  /** What the entry loop requires of the members. */
  predicate MembersOk(members: seq<Member>) {
    && |members| <= ENTRIES && Total(members) <= LIMIT && DistinctNames(members)
    && forall k :: 0 <= k < |members| ==> MemberOk(members[k])
  }

  predicate Accepted(entries: map<string, Entry>) {
    && (forall name :: name in entries ==> Canonical(name) && NoFileAbove(entries, name))
    && ("" in entries ==> entries[""].content.None?)
  }

  predicate NameTaken(members: seq<Member>, name: string) {
    exists k :: 0 <= k < |members| && Normal(members[k].name) == name
  }

  /** One more member is admitted exactly when it is well formed, new, and within the bounds left. */
  lemma OneMore(front: seq<Member>, m: Member)
    ensures MembersOk(front + [m])
            <==> MembersOk(front) && |front| < ENTRIES && MemberOk(m) && !NameTaken(front, Normal(m.name))
                 && Total(front) + m.size <= LIMIT
    ensures Total(front + [m]) == Total(front) + m.size
  {
    hide MemberOk, Normal;
    var all := front + [m];
    assert all[..|front|] == front;
    assert Total(all) == Total(front) + m.size;
    hide Total;
    if MembersOk(all) {
      assert MemberOk(all[|front|]);
      SizesCount(m);
      forall k | 0 <= k < |front| ensures MemberOk(front[k]) && Normal(front[k].name) != Normal(m.name) {
        assert all[k] == front[k];
      }
    }
  }

  lemma SizesCount(m: Member)
    requires MemberOk(m)
    ensures m.size >= 0
  {
  }

  lemma {:induction false} PrefixOk(members: seq<Member>, n: nat)
    requires n <= |members| && MembersOk(members)
    ensures MembersOk(members[..n])
    decreases |members| - n
  {
    if n == |members| {
      assert members[..n] == members;
    } else {
      PrefixOk(members, n + 1);
      assert members[..n + 1] == members[..n] + [members[n]];
      OneMore(members[..n], members[n]);
    }
  }

  lemma PrefixRefused(members: seq<Member>, n: nat)
    requires n <= |members|
    ensures MembersOk(members) ==> MembersOk(members[..n])
  {
    if MembersOk(members) {
      PrefixOk(members, n);
    }
  }

  lemma NothingYet(members: seq<Member>)
    ensures MembersOk(members[..0]) && Holds(map[], members[..0]) && Total(members[..0]) == 0
  {
    assert members[..0] == [];
  }

  lemma HoldsStep(entries: map<string, Entry>, front: seq<Member>, m: Member)
    requires Holds(entries, front)
    ensures Normal(m.name) in entries <==> NameTaken(front, Normal(m.name))
    ensures Normal(m.name) !in entries ==> Holds(entries[Normal(m.name) := EntryOf(m)], front + [m])
  {
    hide Normal, EntryOf;
    var all := front + [m];
    assert forall k :: 0 <= k < |front| ==> all[k] == front[k];
    forall name | name == Normal(m.name) || name in entries
      ensures exists k :: 0 <= k < |all| && Normal(all[k].name) == name {
      if name in entries {
        var k :| 0 <= k < |front| && Normal(front[k].name) == name;
        assert Normal(all[k].name) == name;
      } else {
        assert Normal(all[|front|].name) == name;
      }
    }
  }

  /** The entry loop: every member is admitted, under distinct canonical names and within the bounds, or none is. */
  method Entries(members: seq<Member>) returns (r: Option<map<string, Entry>>)
    ensures r.Some? <==> MembersOk(members)
    ensures r.Some? ==> Holds(r.value, members) && |r.value| == |members|
  {
    var entries: map<string, Entry> := map[];
    var total := 0;
    NothingYet(members);
    hide Holds, MembersOk, Normal, NameTaken, EntryOf, Canonical, Total;
    for n := 0 to |members|
      invariant MembersOk(members[..n]) && Holds(entries, members[..n])
      invariant total == Total(members[..n]) && |entries| == n
    {
      var member := members[n];
      ghost var front := members[..n];
      assert members[..n + 1] == front + [member] && (front + [member])[..n] == front;
      OneMore(front, member);
      HoldsStep(entries, front, member);
      PrefixRefused(members, n + 1);
      if |entries| >= ENTRIES {
        return None;
      }
      var name := Normal(member.name);
      if member.kind == Other || !Canonical(name) {
        return None;
      }
      if name in entries || (name == "" && member.kind != Directory) {
        return None;
      }
      if member.size < 0 || member.size > MEMBER_BYTES || (member.kind == Directory && member.size != 0) {
        return None;
      }
      total := total + member.size;
      if total > LIMIT {
        return None;
      }
      if member.kind == Regular && |member.read| != member.size {
        return None;
      }
      entries := entries[name := EntryOf(member)];
    }
    assert members[..|members|] == members;
    return Some(entries);
  }

  /** The inner loop over the ancestors of one name. */
  method FileAbove(entries: map<string, Entry>, name: string) returns (found: bool)
    ensures found <==> !NoFileAbove(entries, name)
  {
    hide Ancestor;
    var parts := Split(name);
    for depth := 1 to |parts|
      invariant forall d: nat :: 0 < d < depth ==> !FileAt(entries, Ancestor(name, d))
    {
      if FileAt(entries, Ancestor(name, depth)) {
        return true;
      }
    }
    return false;
  }

  /** The outer loop over the names. */
  method NoneAbove(entries: map<string, Entry>) returns (clear: bool)
    ensures clear <==> forall name :: name in entries ==> NoFileAbove(entries, name)
  {
    hide NoFileAbove;
    var todo := entries.Keys;
    while todo != {}
      invariant todo <= entries.Keys
      invariant forall name :: name in entries && name !in todo ==> NoFileAbove(entries, name)
      decreases |todo|
    {
      var name :| name in todo;
      var found := FileAbove(entries, name);
      if found {
        return false;
      }
      todo := todo - {name};
    }
    return true;
  }

  lemma HoldsOnce(a: map<string, Entry>, b: map<string, Entry>, members: seq<Member>)
    requires Holds(a, members) && Holds(b, members)
    ensures a == b
  {
    hide Normal, EntryOf;
  }

  lemma NamesCanonical(entries: map<string, Entry>, members: seq<Member>)
    requires Holds(entries, members) && MembersOk(members)
    ensures forall name :: name in entries ==> Canonical(name)
    ensures "" in entries ==> entries[""].content.None?
  {
    hide Normal, Canonical;
    forall name | name in entries ensures Canonical(name) && (name == "" ==> entries[name].content.None?) {
      var k :| 0 <= k < |members| && Normal(members[k].name) == name;
      assert MemberOk(members[k]);
    }
  }
}
