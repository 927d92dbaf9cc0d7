/** Day 7: a directory tree rebuilt from a terminal session (`$ cd`,
    `$ ls` and the listing lines), then the total size of every directory.

    The script keeps a mutable `Directory` object per directory, with a
    parent pointer and two insertion-ordered dicts.  Here a directory is an
    immutable tree and the current directory is a cursor: the directory in
    focus plus the path of parents above it (a zipper), so following the
    parent pointer is plugging the focus back into its parent. */
module NoSpaceLeft {
  import opened Results
  import opened Seqs
  import PySlice
  import PyText

  /** An insertion-ordered dict from names to values. */
  type Entries<V> = seq<(string, V)>

  function Keys<V>(entries: Entries<V>): (r: seq<string>)
    ensures |r| == |entries|
    ensures forall i :: 0 <= i < |entries| ==> r[i] == entries[i].0
  {
    if entries == [] then [] else [entries[0].0] + Keys(entries[1..])
  }

  /** `d.get(key)`: the value of the first entry with that key. */
  function Lookup<V>(entries: Entries<V>, key: string): (r: Option<V>)
    ensures r.None? <==> key !in Keys(entries)
  {
    if entries == [] then None
    else if entries[0].0 == key then Some(entries[0].1)
    else Lookup(entries[1..], key)
  }

  /** `d.get(key)` finds the value of the first entry with that key. */
  lemma LookupFirst<V>(entries: Entries<V>, key: string, value: V)
    ensures Lookup(entries, key) == Some(value) <==>
              exists i :: 0 <= i < |entries| && entries[i] == (key, value)
                          && forall j :: 0 <= j < i ==> entries[j].0 != key
  {
    if Lookup(entries, key) == Some(value) {
      var i := LookupIndex(entries, key);
    }
    if exists i :: 0 <= i < |entries| && entries[i] == (key, value)
                   && forall j :: 0 <= j < i ==> entries[j].0 != key {
      var i :| 0 <= i < |entries| && entries[i] == (key, value)
               && forall j :: 0 <= j < i ==> entries[j].0 != key;
      LookupAt(entries, key, i);
    }
  }

  /** The first entry with the key is the one found. */
  lemma {:induction false} LookupAt<V>(entries: Entries<V>, key: string, i: nat)
    requires i < |entries| && entries[i].0 == key
    requires forall j :: 0 <= j < i ==> entries[j].0 != key
    ensures Lookup(entries, key) == Some(entries[i].1)
  {
    if i > 0 {
      assert entries[0].0 != key;
      LookupAt(entries[1..], key, i - 1);
    }
  }

  /** A found value comes from the first entry with the key. */
  lemma {:induction false} LookupIndex<V>(entries: Entries<V>, key: string) returns (i: nat)
    requires Lookup(entries, key).Some?
    ensures i < |entries| && entries[i] == (key, Lookup(entries, key).value)
    ensures forall j :: 0 <= j < i ==> entries[j].0 != key
  {
    if entries[0].0 == key {
      i := 0;
    } else {
      var k := LookupIndex(entries[1..], key);
      i := k + 1;
      assert entries[i] == entries[1..][k];
      forall j | 0 <= j < i ensures entries[j].0 != key {
        if j > 0 { assert entries[j] == entries[1..][j - 1]; }
      }
    }
  }

  /** `d[key] = value`: an existing key keeps its place and gets the new
      value, a new key is added at the end. */
  function Assign<V>(entries: Entries<V>, key: string, value: V): (r: Entries<V>)
    ensures Lookup(r, key) == Some(value)
    ensures forall k :: k != key ==> Lookup(r, k) == Lookup(entries, k)
    ensures key in Keys(entries) ==> Keys(r) == Keys(entries)
    ensures key !in Keys(entries) ==> Keys(r) == Keys(entries) + [key]
  {
    if entries == [] then [(key, value)]
    else if entries[0].0 == key then [(key, value)] + entries[1..]
    else [entries[0]] + Assign(entries[1..], key, value)
  }

  /** Storing the value a key already has changes nothing. */
  lemma {:induction false} AssignSame<V>(entries: Entries<V>, key: string, value: V)
    requires Lookup(entries, key) == Some(value)
    ensures Assign(entries, key, value) == entries
  {
    if entries[0].0 != key {
      AssignSame(entries[1..], key, value);
    }
  }

  function Values<V>(entries: Entries<V>): (r: seq<V>)
    ensures |r| == |entries|
    ensures forall i :: 0 <= i < |entries| ==> r[i] == entries[i].1
  {
    if entries == [] then [] else [entries[0].1] + Values(entries[1..])
  }

  datatype Dir = Dir(dirs: Entries<Dir>, files: Entries<int>)

  const EmptyDir := Dir([], [])

  /** `calculate_size`: the files of the directory plus the sizes of its
      subdirectories. */
  function Size(d: Dir): int
    decreases d, 1
  {
    Sum(Values(d.files)) + SizeOfChildren(d, 0)
  }

  /** The sizes of the subdirectories from the `k`-th on. */
  function SizeOfChildren(d: Dir, k: nat): int
    requires k <= |d.dirs|
    decreases d, 0, |d.dirs| - k
  {
    if k == |d.dirs| then 0 else Size(d.dirs[k].1) + SizeOfChildren(d, k + 1)
  }

  /** Every file size of a tree: the directory's own, then each
      subdirectory's in order. */
  function AllFiles(d: Dir): seq<int>
    decreases d, 1
  {
    Values(d.files) + AllFilesOfChildren(d, 0)
  }

  function AllFilesOfChildren(d: Dir, k: nat): seq<int>
    requires k <= |d.dirs|
    decreases d, 0, |d.dirs| - k
  {
    if k == |d.dirs| then [] else AllFiles(d.dirs[k].1) + AllFilesOfChildren(d, k + 1)
  }

  /** The size of a directory is the total of every file below it. */
  lemma {:induction false} SizeIsTotalOfFiles(d: Dir)
    ensures Size(d) == Sum(AllFiles(d))
    decreases d, 1
  {
    SizeOfChildrenIsTotal(d, 0);
    SumConcat(Values(d.files), AllFilesOfChildren(d, 0));
  }

  lemma {:induction false} SizeOfChildrenIsTotal(d: Dir, k: nat)
    requires k <= |d.dirs|
    ensures SizeOfChildren(d, k) == Sum(AllFilesOfChildren(d, k))
    decreases d, 0, |d.dirs| - k
  {
    if k < |d.dirs| {
      SizeIsTotalOfFiles(d.dirs[k].1);
      SizeOfChildrenIsTotal(d, k + 1);
      SumConcat(AllFiles(d.dirs[k].1), AllFilesOfChildren(d, k + 1));
    }
  }

  /** `get_size_of_dirs`: for every subdirectory in order, its size and
      then the sizes below it. */
  function DirSizes(d: Dir): seq<int>
    decreases d, 1
  {
    DirSizesOfChildren(d, 0)
  }

  function DirSizesOfChildren(d: Dir, k: nat): seq<int>
    requires k <= |d.dirs|
    decreases d, 0, |d.dirs| - k
  {
    if k == |d.dirs| then []
    else [Size(d.dirs[k].1)] + DirSizes(d.dirs[k].1) + DirSizesOfChildren(d, k + 1)
  }

  /** The directories strictly below `d`, in pre-order. */
  function Descendants(d: Dir): seq<Dir>
    decreases d, 1
  {
    DescendantsOfChildren(d, 0)
  }

  function DescendantsOfChildren(d: Dir, k: nat): seq<Dir>
    requires k <= |d.dirs|
    decreases d, 0, |d.dirs| - k
  {
    if k == |d.dirs| then []
    else [d.dirs[k].1] + Descendants(d.dirs[k].1) + DescendantsOfChildren(d, k + 1)
  }

  /** One size per descendant directory, in pre-order. */
  lemma {:induction false} DirSizesArePreOrder(d: Dir)
    ensures |DirSizes(d)| == |Descendants(d)|
    ensures forall i :: 0 <= i < |DirSizes(d)| ==> DirSizes(d)[i] == Size(Descendants(d)[i])
    decreases d, 1
  {
    ChildrenSizesArePreOrder(d, 0);
  }

  lemma {:induction false} ChildrenSizesArePreOrder(d: Dir, k: nat)
    requires k <= |d.dirs|
    ensures |DirSizesOfChildren(d, k)| == |DescendantsOfChildren(d, k)|
    ensures forall i :: 0 <= i < |DirSizesOfChildren(d, k)| ==>
              DirSizesOfChildren(d, k)[i] == Size(DescendantsOfChildren(d, k)[i])
    decreases d, 0, |d.dirs| - k
  {
    if k < |d.dirs| {
      var child := d.dirs[k].1;
      DirSizesArePreOrder(child);
      ChildrenSizesArePreOrder(d, k + 1);
      var a := [Size(child)] + DirSizes(child);
      var b := [child] + Descendants(child);
      assert forall i :: 0 <= i < |a| ==> a[i] == Size(b[i]) by {
        forall i | 0 <= i < |a| ensures a[i] == Size(b[i]) {
          if i > 0 {
            assert a[i] == DirSizes(child)[i - 1];
            assert b[i] == Descendants(child)[i - 1];
          }
        }
      }
    }
  }

  ghost predicate NonNegativeFiles(d: Dir)
  {
    forall i :: 0 <= i < |AllFiles(d)| ==> AllFiles(d)[i] >= 0
  }

  /** With non-negative file sizes, no directory below the root is
      larger than the root, and none is negative. */
  lemma {:induction false} DirSizesBounded(d: Dir)
    requires NonNegativeFiles(d)
    ensures forall i :: 0 <= i < |DirSizes(d)| ==> 0 <= DirSizes(d)[i] <= Size(d)
    decreases d, 1
  {
    var own := Values(d.files);
    var below := AllFilesOfChildren(d, 0);
    assert AllFiles(d) == own + below;
    assert forall i :: 0 <= i < |own| ==> own[i] == (own + below)[i];
    assert forall i :: 0 <= i < |below| ==> below[i] == (own + below)[|own| + i];
    SizeIsTotalOfFiles(d);
    SumConcat(own, below);
    SumNonNegative(own);
    ChildrenSizesBounded(d, 0);
  }

  lemma {:induction false} ChildrenSizesBounded(d: Dir, k: nat)
    requires k <= |d.dirs|
    requires forall i :: 0 <= i < |AllFilesOfChildren(d, k)| ==> AllFilesOfChildren(d, k)[i] >= 0
    ensures forall i :: 0 <= i < |DirSizesOfChildren(d, k)| ==>
              0 <= DirSizesOfChildren(d, k)[i] <= Sum(AllFilesOfChildren(d, k))
    decreases d, 0, |d.dirs| - k
  {
    if k < |d.dirs| {
      var child := d.dirs[k].1;
      var mine := AllFiles(child);
      var others := AllFilesOfChildren(d, k + 1);
      assert AllFilesOfChildren(d, k) == mine + others;
      assert forall i :: 0 <= i < |mine| ==> mine[i] == (mine + others)[i];
      assert forall i :: 0 <= i < |others| ==> others[i] == (mine + others)[|mine| + i];
      DirSizesBounded(child);
      ChildrenSizesBounded(d, k + 1);
      SizeIsTotalOfFiles(child);
      SumConcat(mine, others);
      SumNonNegative(mine);
      SumNonNegative(others);
      var s := DirSizesOfChildren(d, k);
      var head := [Size(child)] + DirSizes(child);
      assert s == head + DirSizesOfChildren(d, k + 1);
      forall i | 0 <= i < |s|
        ensures 0 <= s[i] <= Sum(mine + others)
      {
        if i == 0 {
        } else if i < |head| {
          assert s[i] == DirSizes(child)[i - 1];
        } else {
          assert s[i] == DirSizesOfChildren(d, k + 1)[i - |head|];
        }
      }
    }
  }

  /** A parent with the name under which the focus hangs in it. */
  datatype Crumb = Crumb(name: string, parent: Dir)

  /** The current directory and the directories above it, innermost last. */
  datatype Cursor = Cursor(focus: Dir, path: seq<Crumb>)

  /** Following the parent pointer; the root has none (`None`). */
  function Up(c: Cursor): (r: Option<Cursor>)
    ensures r.Some? <==> c.path != []
    ensures r.Some? ==> r.value.path == c.path[..|c.path| - 1]
  {
    if c.path == [] then None
    else
      var crumb := c.path[|c.path| - 1];
      Some(Cursor(Dir(Assign(crumb.parent.dirs, crumb.name, c.focus), crumb.parent.files),
                  c.path[..|c.path| - 1]))
  }

  /** `$ cd name`: the name must already be a subdirectory (AssertionError
      otherwise). */
  function Down(c: Cursor, name: string): (r: Result<Cursor>)
    ensures r.Ok? <==> name in Keys(c.focus.dirs)
    ensures r.Ok? ==> Lookup(c.focus.dirs, name) == Some(r.value.focus)
    ensures r.Ok? ==> r.value.path == c.path + [Crumb(name, c.focus)]
  {
    match Lookup(c.focus.dirs, name)
    case None => Err("AssertionError")
    case Some(child) => Ok(Cursor(child, c.path + [Crumb(name, c.focus)]))
  }

  /** `cd name` followed by `cd ..` comes back to the same state. */
  lemma DownUp(c: Cursor, name: string)
    requires name in Keys(c.focus.dirs)
    ensures Up(Down(c, name).value) == Some(c)
  {
    var d := Down(c, name).value;
    assert d.path[..|d.path| - 1] == c.path;
    AssignSame(c.focus.dirs, name, d.focus);
  }

  /** `get_root`: the directory reached by following parent pointers until
      there is none, with every change made on the way plugged in. */
  function Root(c: Cursor): Dir
    decreases |c.path|
  {
    match Up(c)
    case None => c.focus
    case Some(parent) => Root(parent)
  }

  /** The root of a cursor without parents is the focus itself, and going
      up never changes the root. */
  lemma RootOfUp(c: Cursor)
    ensures c.path == [] ==> Root(c) == c.focus
    ensures c.path != [] ==> Root(Up(c).value) == Root(c)
  {
  }

  /** The last token of `line.split(' ')`. */
  function LastToken(line: string): string
  {
    var tokens := PyText.Split(line, ' ');
    tokens[|tokens| - 1]
  }

  /** One stripped line of the session after the initial `$ cd /` and
      `$ ls`: a `cd` moves, other commands do nothing, `dir x` (re)creates
      an empty subdirectory and `<size> <name>` records a file.  The state
      is `None` once `cd ..` has left the root: the script keeps going
      until its next use of the current directory, which raises
      AttributeError, while a malformed listing line raises ValueError
      before that use. */
  function Step(s: Option<Cursor>, line: string): (r: Result<Option<Cursor>>)
    ensures PyText.StartsWith(line, "$") && PySlice.Slice(line, 2, 4) != "cd" ==> r == Ok(s)
    ensures PyText.StartsWith(line, "$") && PySlice.Slice(line, 2, 4) == "cd" && s.Some? ==>
              r == if LastToken(line) == ".." then Ok(Up(s.value))
                   else match Down(s.value, LastToken(line))
                        case Ok(d) => Ok(Some(d))
                        case Err(e) => Err(e)
    ensures !PyText.StartsWith(line, "$") && |PyText.Split(line, ' ')| != 2 ==> r == Err("ValueError")
    ensures s.None? ==> r.Err? || r == Ok(None)
    ensures s.None? && PyText.StartsWith(line, "$") && PySlice.Slice(line, 2, 4) == "cd" ==>
              r == Err("AttributeError")
    ensures (s.None? && !PyText.StartsWith(line, "$") && |PyText.Split(line, ' ')| == 2
             && PyText.Split(line, ' ')[0] == "dir") ==> r == Err("AttributeError")
    ensures s.None? && r.Err? && r.error != "AttributeError" ==> r.error == "ValueError"
    ensures !PyText.StartsWith(line, "$") && r.Ok? ==>
              r.value.Some? && r.value.value.path == s.value.path && |PyText.Split(line, ' ')| == 2
    ensures !PyText.StartsWith(line, "$") && r.Ok? && PyText.Split(line, ' ')[0] == "dir" ==>
              r.value.value.focus == Dir(Assign(s.value.focus.dirs, PyText.Split(line, ' ')[1], EmptyDir),
                                        s.value.focus.files)
    ensures !PyText.StartsWith(line, "$") && r.Ok? && PyText.Split(line, ' ')[0] != "dir" ==>
              r.value.value.focus.dirs == s.value.focus.dirs
              && Lookup(r.value.value.focus.files, PyText.Split(line, ' ')[1])
                 == PyText.ParseInt(PyText.Split(line, ' ')[0])
  {
    if PyText.StartsWith(line, "$") then
      if PySlice.Slice(line, 2, 4) == "cd" then
        var key := LastToken(line);
        if s.None? then Err("AttributeError")
        else if key == ".." then Ok(Up(s.value))
        else
          var d :- Down(s.value, key);
          Ok(Some(d))
      else Ok(s)
    else
      var tokens := PyText.Split(line, ' ');
      if |tokens| != 2 then Err("ValueError")
      else if tokens[0] == "dir" then
        if s.None? then Err("AttributeError")
        else
          var c := s.value;
          Ok(Some(Cursor(Dir(Assign(c.focus.dirs, tokens[1], EmptyDir), c.focus.files), c.path)))
      else match PyText.ParseInt(tokens[0])
        case None => Err("ValueError")
        case Some(size) =>
          if s.None? then Err("AttributeError")
          else
            var c := s.value;
            Ok(Some(Cursor(Dir(c.focus.dirs, Assign(c.focus.files, tokens[1], size)), c.path)))
  }

  function Replay(s: Option<Cursor>, lines: seq<string>): Result<Option<Cursor>>
    decreases |lines|
  {
    if lines == [] then Ok(s)
    else
      var next :- Step(s, lines[0]);
      Replay(next, lines[1..])
  }

  /** Once the current directory is gone the replay never finds one again:
      it either fails or ends without one. */
  lemma {:induction false} DetachedStays(lines: seq<string>)
    ensures Replay(None, lines).Err? || Replay(None, lines) == Ok(None)
    decreases |lines|
  {
    if lines != [] {
      DetachedStays(lines[1..]);
    }
  }

  /** The session's tree: replayed from an empty root after the first two
      lines, stripped, then followed up to the root; `get_root` on a missing
      current directory raises AttributeError. */
  function BuildTree(raws: seq<string>): (r: Result<Dir>)
    ensures var lines := seq(|raws|, i requires 0 <= i < |raws| => PyText.Strip(raws[i]));
            Replay(Some(Cursor(EmptyDir, [])), PySlice.From(lines, 2)) == Ok(None) ==>
              r == Err("AttributeError")
  {
    var lines := seq(|raws|, i requires 0 <= i < |raws| => PyText.Strip(raws[i]));
    var final :- Replay(Some(Cursor(EmptyDir, [])), PySlice.From(lines, 2));
    if final.None? then Err("AttributeError") else Ok(Root(final.value))
  }

  /** `cd ..` at the root leaves the session without a current directory. */
  lemma LeaveRoot()
    ensures Step(Some(Cursor(EmptyDir, [])), "$ cd ..") == Ok(None)
  {
    CdUpLine();
  }

  /** `$ cd ..` is a `cd` command whose last token is `..`. */
  lemma CdUpLine()
    ensures PyText.StartsWith("$ cd ..", "$") && PySlice.Slice("$ cd ..", 2, 4) == "cd"
    ensures LastToken("$ cd ..") == ".."
  {
    PyText.SplitPlain("..", ' ');
    PyText.SplitFirst("cd", "..", ' ');
    PyText.SplitFirst("$", "cd ..", ' ');
    assert "$ cd .." == "$" + " " + ("cd" + " " + "..");
  }

  /** Without a current directory, `$ ls` changes nothing, a line that is
      not two tokens raises ValueError and `dir a` raises AttributeError. */
  lemma DetachedLines()
    ensures Step(None, "$ ls") == Ok(None)
    ensures Step(None, "oops") == Err("ValueError")
    ensures Step(None, "dir a") == Err("AttributeError")
  {
    assert Step(None, "$ ls") == Ok(None) by {
      assert PySlice.Slice("$ ls", 2, 4) == "ls";
    }
    assert Step(None, "oops") == Err("ValueError") by {
      PyText.SplitPlain("oops", ' ');
    }
    assert Step(None, "dir a") == Err("AttributeError") by {
      DirLine();
    }
  }

  /** `dir a` is a listing line of two tokens, the first `dir`. */
  lemma DirLine()
    ensures !PyText.StartsWith("dir a", "$") && PyText.Split("dir a", ' ') == ["dir", "a"]
  {
    PyText.SplitPlain("a", ' ');
    PyText.SplitFirst("dir", "a", ' ');
    assert "dir a" == "dir" + " " + "a";
  }

  /** Leaving the root and then listing a malformed line fails on the line
      (ValueError), not on the missing directory; a command other than `cd`
      in between changes nothing, and the next use of the missing directory
      raises AttributeError. */
  lemma MalformedAfterLeavingRoot()
    ensures Replay(Some(Cursor(EmptyDir, [])), ["$ cd ..", "$ ls", "oops"]) == Err("ValueError")
    ensures Replay(Some(Cursor(EmptyDir, [])), ["$ cd ..", "$ ls", "dir a"]) == Err("AttributeError")
  {
    LeaveRoot();
    DetachedLines();
  }

  /** The sizes of `s` below `bound`, in order. */
  function Below(s: seq<int>, bound: int): (r: seq<int>)
    ensures forall x :: x in r <==> x in s && x < bound
  {
    if s == [] then []
    else (if s[0] < bound then [s[0]] else []) + Below(s[1..], bound)
  }

  /** The sizes of `s` at or above `bound`, in order. */
  function AtLeast(s: seq<int>, bound: int): (r: seq<int>)
    ensures forall x :: x in r <==> x in s && x >= bound
  {
    if s == [] then []
    else (if s[0] >= bound then [s[0]] else []) + AtLeast(s[1..], bound)
  }

  /** Splitting the sizes at a bound splits their sum. */
  lemma {:induction false} BelowAtLeastPartition(s: seq<int>, bound: int)
    ensures Sum(Below(s, bound)) + Sum(AtLeast(s, bound)) == Sum(s)
  {
    if s != [] {
      BelowAtLeastPartition(s[1..], bound);
      var b0 := if s[0] < bound then [s[0]] else [];
      var a0 := if s[0] >= bound then [s[0]] else [];
      SumConcat(b0, Below(s[1..], bound));
      SumConcat(a0, AtLeast(s[1..], bound));
    }
  }

  /** Part 1: the total of the directory sizes under 100000. */
  function Part1(root: Dir): int
  {
    Sum(Below(DirSizes(root), 100000))
  }

  /** Part 2: the smallest directory whose deletion leaves 30000000 of the
      70000000 free; IndexError when there is none. */
  function Part2(root: Dir): (r: Result<int>)
    ensures r.Ok? ==> r.value in DirSizes(root)
                      && r.value >= 30000000 - (70000000 - Size(root))
    ensures r.Ok? ==> forall i :: (0 <= i < |DirSizes(root)|
                        && DirSizes(root)[i] >= 30000000 - (70000000 - Size(root))) ==> r.value <= DirSizes(root)[i]
    ensures r.Err? <==> forall i :: 0 <= i < |DirSizes(root)| ==>
                          DirSizes(root)[i] < 30000000 - (70000000 - Size(root))
  {
    var needed := 30000000 - (70000000 - Size(root));
    var candidates := AtLeast(DirSizes(root), needed);
    if candidates == [] then
      assert forall i :: 0 <= i < |DirSizes(root)| ==> DirSizes(root)[i] !in candidates;
      Err("IndexError")
    else
      assert forall i :: 0 <= i < |DirSizes(root)| && DirSizes(root)[i] >= needed ==>
        DirSizes(root)[i] in candidates;
      Ok(Min(candidates))
  }
}
