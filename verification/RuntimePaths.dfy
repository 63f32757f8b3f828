/** Relative archive names and the directory entries they lead to.

    Source: scripts/navigation-linux-handoff-runtime-stage.py; names are cut at '/' as Python's `split` does. */
module RuntimePaths {
  import opened Options
  import Texts

  type Path = seq<string>

  function Split(name: string): (parts: Path)
    ensures parts != []
  {
    Texts.Split(name, '/')
  }

  function Join(parts: Path): string
    requires parts != []
  {
    Texts.Join(parts, '/')
  }

  /** Where the parts lead from the root: empty and '.' parts stay, '..' goes up; None once the root is left. */
  function Resolve(parts: Path): Option<Path> {
    if parts == [] then Some([])
    else
      var up, last := Resolve(parts[..|parts| - 1]), parts[|parts| - 1];
      if up.None? || last == "" || last == "." then up
      else if last == ".." then if up.value == [] then None else Some(up.value[..|up.value| - 1])
      else Some(up.value + [last])
  }

  predicate Plain(parts: Path) {
    forall k :: 0 <= k < |parts| ==> parts[k] != "" && parts[k] != "." && parts[k] != ".."
  }

  lemma {:induction false} PlainResolves(parts: Path)
    requires Plain(parts)
    ensures Resolve(parts) == Some(parts)
  {
    if parts != [] {
      PlainResolves(parts[..|parts| - 1]);
      assert parts == parts[..|parts| - 1] + [parts[|parts| - 1]];
    }
  }
}
