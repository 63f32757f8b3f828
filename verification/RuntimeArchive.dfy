/** What an archive must be to be staged, said of names, numbers and bytes alone.

    Source: scripts/navigation-linux-handoff-runtime-stage.py, the docstring and checks of `validated_tree`. */
module RuntimeArchive {
  import opened Options
  import opened RuntimePaths
  import opened RuntimeStage
  import Texts

  /** The entry of a member called `name` is filed under `filed`. */
  ghost predicate FiledAs(name: string, filed: string) {
    if name == "." || name == "./." then filed == ""
    else if "./" <= name then name == "./" + filed
    else name == filed
  }

  lemma FiledExactly(name: string, filed: string)
    ensures FiledAs(name, filed) <==> Normal(name) == filed
  {
    if "./" <= name { assert name == "./" + name[2..]; }
  }

  /** No backslash, and nothing between two slashes that is empty or a dot or two. */
  ghost predicate GoodName(name: string) {
    '\\' !in name
    && forall before, part, after :: Texts.Between(name, '/', before, part, after) ==> part !in {"", ".", ".."}
  }

  lemma GoodExactly(name: string)
    ensures Canonical(name) <==> name == "" || GoodName(name)
  {
    hide Texts.Between, Texts.Split;
    if name != "" && Canonical(name) {
      forall before, part, after | Texts.Between(name, '/', before, part, after) ensures part !in {"", ".", ".."} {
        Texts.PartsExactly(name, '/', part);
        var k :| 0 <= k < |Split(name)| && Split(name)[k] == part;
      }
    }
    if GoodName(name) {
      forall k | 0 <= k < |Split(name)|
        ensures Split(name)[k] != "" && Split(name)[k] != "." && Split(name)[k] != ".."
      {
        var before, after := Texts.PartBetween(name, '/', k);
      }
    }
  }

  /** A directory or a complete regular file of at most 16 MiB, under a good name; only a directory is the root. */
  ghost predicate WellFormed(m: Member, filed: string) {
    && (filed == "" || GoodName(filed))
    && match m.kind
       case Directory => m.size == 0
       case Regular => filed != "" && 0 <= m.size <= 16777216 && |m.read| == m.size
       case Other => false
  }

  lemma WellFormedExactly(m: Member)
    ensures MemberOk(m) <==> WellFormed(m, Normal(m.name))
  {
    hide Normal, Canonical, GoodName;
    GoodExactly(Normal(m.name));
  }

  /** At most 4096 well formed members with at most 64 MiB in all, no two of them filed under one name. */
  ghost predicate Admissible(members: seq<Member>) {
    && |members| <= 4096 && Total(members) <= 67108864
    && (forall k, filed :: 0 <= k < |members| && FiledAs(members[k].name, filed) ==> WellFormed(members[k], filed))
    && forall j, k, filed :: 0 <= j < k < |members| && FiledAs(members[j].name, filed)
        ==> !FiledAs(members[k].name, filed)
  }

  ghost predicate ListsAt(entries: map<string, Entry>, m: Member, filed: string) {
    filed in entries && entries[filed].executable == m.executable
    && entries[filed].content == if m.kind == Regular then Some(m.read) else None
  }

  /** The entries are the members' bytes and modes, each where it is filed, and nothing else. */
  ghost predicate Lists(entries: map<string, Entry>, members: seq<Member>) {
    && (forall k :: 0 <= k < |members| ==>
          forall filed :: FiledAs(members[k].name, filed) ==> ListsAt(entries, members[k], filed))
    && forall filed :: filed in entries ==> exists k :: 0 <= k < |members| && FiledAs(members[k].name, filed)
  }

  /** No name begins with a file's name and a slash. */
  ghost predicate Sheltered(entries: map<string, Entry>) {
    forall file, name :: file in entries && entries[file].content.Some? && name in entries ==> !(file + "/" <= name)
  }

  lemma AdmissibleExactly(members: seq<Member>)
    ensures MembersOk(members) <==> Admissible(members)
  {
    forall k, filed | 0 <= k < |members|
      ensures FiledAs(members[k].name, filed) <==> Normal(members[k].name) == filed
    {
      FiledExactly(members[k].name, filed);
    }
    forall k | 0 <= k < |members| ensures MemberOk(members[k]) <==> WellFormed(members[k], Normal(members[k].name)) {
      WellFormedExactly(members[k]);
    }
    hide Normal, FiledAs, MemberOk, WellFormed, Total;
    if Admissible(members) {
      assert forall k :: 0 <= k < |members| ==> FiledAs(members[k].name, Normal(members[k].name));
    }
  }

  lemma EntryExactly(entries: map<string, Entry>, m: Member)
    ensures (forall filed :: FiledAs(m.name, filed) ==> ListsAt(entries, m, filed))
       <==> Normal(m.name) in entries && entries[Normal(m.name)] == EntryOf(m)
    ensures forall filed :: FiledAs(m.name, filed) <==> Normal(m.name) == filed
  {
    forall filed ensures FiledAs(m.name, filed) <==> Normal(m.name) == filed { FiledExactly(m.name, filed); }
    hide Normal, FiledAs;
    assert FiledAs(m.name, Normal(m.name));
  }

  lemma ListsExactly(entries: map<string, Entry>, members: seq<Member>)
    ensures Holds(entries, members) <==> Lists(entries, members)
  {
    hide Normal, FiledAs, EntryOf, ListsAt;
    forall k | 0 <= k < |members|
      ensures (forall filed :: FiledAs(members[k].name, filed) ==> ListsAt(entries, members[k], filed))
         <==> Normal(members[k].name) in entries && entries[Normal(members[k].name)] == EntryOf(members[k])
      ensures forall filed :: FiledAs(members[k].name, filed) <==> Normal(members[k].name) == filed
    {
      EntryExactly(entries, members[k]);
    }
  }

  lemma ShelteredExactly(entries: map<string, Entry>)
    ensures (forall name :: name in entries ==> NoFileAbove(entries, name)) <==> Sheltered(entries)
  {
    forall name | name in entries
      ensures NoFileAbove(entries, name)
         <==> forall file :: file in entries && entries[file].content.Some? ==> !(file + "/" <= name)
    {
      NoFileAboveExactly(entries, name);
    }
    hide NoFileAbove;
  }

  lemma NoFileAboveExactly(entries: map<string, Entry>, name: string)
    ensures NoFileAbove(entries, name)
       <==> forall file :: file in entries && entries[file].content.Some? ==> !(file + "/" <= name)
  {
    forall file | file + "/" <= name ensures exists d: nat :: 0 < d < |Split(name)| && Ancestor(name, d) == file {
      AncestorStands(name, file);
    }
    forall d: nat | 0 < d < |Split(name)| ensures Ancestor(name, d) + "/" <= name {
      AncestorLeads(name, d);
    }
    hide Ancestor, Split;
  }

  lemma AncestorLeads(name: string, d: nat)
    requires 0 < d < |Split(name)|
    ensures Ancestor(name, d) + "/" <= name
  {
    Texts.FrontLeads(name, '/', d);
    assert ['/'] == "/";
  }

  lemma AncestorStands(name: string, file: string)
    requires file + "/" <= name
    ensures exists d: nat :: 0 < d < |Split(name)| && Ancestor(name, d) == file
  {
    Texts.PrefixExactly(name, '/', file);
    assert ['/'] == "/";
    var d :| 0 < d < |Split(name)| && Join(Split(name)[..d]) == file;
    assert Ancestor(name, d) == file;
  }

  // ----- the whole of it -----

  /** The executable is listed, a file, marked as executable, and authentic. */
  ghost predicate Runs<Digest>(entries: map<string, Entry>, executable: string, expected: Digest,
                               hash: Bytes -> Digest)
  {
    executable in entries && entries[executable].executable && entries[executable].content.Some?
    && hash(entries[executable].content.value) == expected
  }

  /** The archive is within the byte bound and is the pinned one, its members are admissible, `entries` lists them, no
      file stands above another entry, and the executable runs. `untar` is the tar reader;
      None is its error. */
  ghost predicate Approves<Digest>(data: Bytes, archive: Digest, executable: string, expected: Digest,
                                   hash: Bytes -> Digest, untar: Bytes -> Option<seq<Member>>,
                                   entries: map<string, Entry>)
  {
    && |data| <= 67108864 && hash(data) == archive && untar(data).Some?
    && Admissible(untar(data).value) && Lists(entries, untar(data).value) && Sheltered(entries)
    && Runs(entries, executable, expected, hash)
  }

  /** `validated_tree`: gives the entries of an archive exactly when it approves of them. */
  method ValidatedTree<Digest(==)>(data: Bytes, archive: Digest, executable: string, expected: Digest,
                                   hash: Bytes -> Digest, untar: Bytes -> Option<seq<Member>>)
      returns (r: Option<map<string, Entry>>)
    ensures forall entries: map<string, Entry> :: r == Some(entries) <==>
                              Approves(data, archive, executable, expected, hash, untar, entries)
    ensures r.Some? ==> Accepted(r.value)
  {
    if |data| > LIMIT || hash(data) != archive || untar(data) == None {
      return None;
    }
    ghost var members := untar(data).value;
    AdmissibleExactly(members);
    forall entries: map<string, Entry> ensures Holds(entries, members) <==> Lists(entries, members) {
      ListsExactly(entries, members);
    }
    hide MembersOk, Admissible, Holds, Lists, Sheltered, Accepted, Runs;
    r := Validated(untar(data).value, executable, expected, hash);
  }

  /** The rest of it, on the members. */
  method Validated<Digest(==)>(members: seq<Member>, executable: string, expected: Digest, hash: Bytes -> Digest)
      returns (r: Option<map<string, Entry>>)
    ensures forall entries: map<string, Entry> :: r == Some(entries) <==>
      MembersOk(members) && Holds(entries, members) && Sheltered(entries)
      && Runs(entries, executable, expected, hash)
    ensures r.Some? ==> Accepted(r.value)
  {
    var admitted := Entries(members);
    if admitted == None {
      return None;
    }
    var entries := admitted.value;
    forall other | Holds(other, members) ensures other == entries {
      HoldsOnce(other, entries, members);
    }
    NamesCanonical(entries, members);
    ShelteredExactly(entries);
    hide Holds, MembersOk, Canonical, NoFileAbove, Sheltered;
    var clear := NoneAbove(entries);
    if !clear {
      return None;
    }
    if !FileAt(entries, executable) || !entries[executable].executable {
      return None;
    }
    if hash(entries[executable].content.value) != expected {
      return None;
    }
    return Some(entries);
  }
}
