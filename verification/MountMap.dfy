/** The mount table as a map from token sequences to files: what mounting adds, what looking up
    finds, and when opening a path needs no storage. */
module MountMap {
  import opened Machine
  import opened Tokens

  const SLASH: string := "/"

  /** A VFSNode: a reference that is told apart by its identity, with what openFile reads. */
  datatype File = File(id: nat, flags: u32, storage: bool)

  type Path = seq<string>
  type Table = map<Path, Option<File>>

  /** The tokens a walk follows: those strsep yields, up to the first empty one. */
  function Steps(rest: Option<string>): (s: Path)
    ensures "" !in s
    decreases if rest.Some? then |rest.value| + 1 else 0
  {
    if rest.None? then []
    else
      var (token, next) := Separate(rest.value, SLASH);
      if token == "" then [] else [token] + Steps(next)
  }

  lemma TakeCons(token: string, u: Path, j: nat)
    requires j <= |u|
    ensures [token] + u[..j] == ([token] + u)[..j + 1]
  {
  }

  /** The first k tokens of t are not empty, and the next one is. */
  ghost predicate GapAt(t: Path, k: nat) {
    k <= |t| && (forall i :: 0 <= i < k ==> t[i] != "") && (k < |t| ==> t[k] == "")
  }

  lemma GapAtCons(token: string, u: Path, j: nat)
    requires token != "" && GapAt(u, j)
    ensures GapAt([token] + u, j + 1)
  {
  }

  lemma StepsMore(s: string, token: string, next: string, j: nat)
    requires token != "" && Steps(Some(s)) == [token] + Steps(Some(next))
    requires Split(s, "/") == [token] + Split(next, "/")
    requires GapAt(Split(next, "/"), j) && Steps(Some(next)) == Split(next, "/")[..j]
    ensures GapAt(Split(s, "/"), j + 1) && Steps(Some(s)) == Split(s, "/")[..j + 1]
  {
    TakeCons(token, Split(next, "/"), j);
    GapAtCons(token, Split(next, "/"), j);
  }

  /** The steps are the tokens of the split in front of the first empty one. */
  lemma {:induction false} StepsAre(s: string) returns (k: nat)
    ensures GapAt(Split(s, "/"), k) && Steps(Some(s)) == Split(s, "/")[..k]
    decreases |s|
  {
    SplitStep(s, SLASH);
    var (token, next) := Separate(s, SLASH);
    if token == "" {
      k := 0;
    } else if next.None? {
      k := 1;
      assert token == s && Split(s, SLASH) == [s];
      assert Steps(None) == [] && Steps(Some(s)) == [token] + Steps(None);
    } else {
      var j := StepsAre(next.value);
      k := j + 1;
      StepsMore(s, token, next.value, j);
    }
  }

  function Parent(p: Path): Path {
    if p == [] then [] else p[..|p| - 1]
  }

  function Child(p: Path, t: string): Path {
    p + [t]
  }

  lemma ChildPath(p: Path, t: string, q: Path, u: string)
    ensures Parent(Child(p, t)) == p && Child(p, t) != p
    ensures Child(p, t) == Child(q, u) ==> p == q && t == u
  {
    if Child(p, t) == Child(q, u) {
      assert Parent(Child(p, t)) == Parent(Child(q, u));
      assert Child(p, t)[|p|] == t;
    }
  }

  /** Every path has its parent in the table. */
  ghost predicate Closed(keys: set<Path>) {
    [] in keys && forall p {:trigger Parent(p)} :: p in keys ==> Parent(p) in keys
  }

  ghost predicate IsPrefix(p: Path, q: Path, steps: Path) {
    exists k: nat :: k <= |steps| && p == q + steps[..k]
  }

  /** Mounting f at q extended by `steps`: the missing nodes on the way appear without a file. */
  function Mounted(m: Table, q: Path, steps: Path, f: Option<File>): Table
    decreases |steps|
  {
    if steps == [] then m[q := f]
    else
      var p := q + [steps[0]];
      Mounted(if p in m then m else m[p := None], p, steps[1..], f)
  }

  /** Looking up from q: the node where the walk stops, and the text it has not read. */
  function Descend(keys: set<Path>, q: Path, rest: Option<string>): (Path, Option<string>)
    decreases if rest.Some? then |rest.value| + 1 else 0
  {
    if rest.None? then (q, None)
    else
      var (token, next) := Separate(rest.value, SLASH);
      if token != "" && q + [token] in keys then Descend(keys, q + [token], next) else (q, next)
  }

  // ----- Mounting adds the missing prefixes and nothing else

  /** Exactly the prefixes of the path join the keys; the path itself gets the file, the other
      new ones none; what was there before keeps its file. */
  lemma {:induction false} MountedIs(m: Table, q: Path, steps: Path, f: Option<File>)
    requires q in m
    ensures var r := Mounted(m, q, steps, f);
      && (forall p :: p in r <==> p in m || IsPrefix(p, q, steps))
      && q + steps in r && r[q + steps] == f
      && (forall p :: p in r && p != q + steps ==> r[p] == if p in m then m[p] else None)
    decreases |steps|
  {
    var r := Mounted(m, q, steps, f);
    if steps == [] {
      assert q + steps == q;
      assert forall p :: IsPrefix(p, q, steps) ==> p == q;
      assert q == q + steps[..0] && IsPrefix(q, q, steps);
    } else {
      var p0 := q + [steps[0]];
      var m1 := if p0 in m then m else m[p0 := None];
      MountedIs(m1, p0, steps[1..], f);
      assert p0 + steps[1..] == q + steps;
      forall p
        ensures p == q || IsPrefix(p, p0, steps[1..]) <==> IsPrefix(p, q, steps)
      {
        PrefixCons(p, q, steps);
      }
      PrefixCons(p0, q, steps);
      assert p0 == p0 + steps[1..][..0];
    }
  }

  lemma PrefixCons(p: Path, q: Path, steps: Path)
    requires steps != []
    ensures p == q || IsPrefix(p, q + [steps[0]], steps[1..]) <==> IsPrefix(p, q, steps)
  {
    if IsPrefix(p, q, steps) {
      var k: nat :| k <= |steps| && p == q + steps[..k];
      if k > 0 {
        assert p == q + [steps[0]] + steps[1..][..k - 1];
      } else {
        assert p == q;
      }
    }
    if IsPrefix(p, q + [steps[0]], steps[1..]) {
      var k: nat :| k <= |steps[1..]| && p == q + [steps[0]] + steps[1..][..k];
      assert p == q + steps[..k + 1];
    }
    if p == q {
      assert p == q + steps[..0];
    }
  }

  lemma MountedClosed(m: Table, steps: Path, f: Option<File>)
    requires Closed(m.Keys)
    ensures Closed(Mounted(m, [], steps, f).Keys)
  {
    MountedIs(m, [], steps, f);
    var r := Mounted(m, [], steps, f);
    forall p | p in r
      ensures Parent(p) in r
    {
      if p !in m {
        var k: nat :| k <= |steps| && p == [] + steps[..k];
        if k > 0 {
          assert Parent(p) == [] + steps[..k - 1];
        }
        assert IsPrefix(Parent(p), [], steps);
      }
    }
  }

  // ----- Looking up finds the longest prefix

  /** The walk stops at the longest prefix of the path that is in the table. */
  lemma {:induction false} DescendLongest(keys: set<Path>, q: Path, rest: Option<string>) returns (k: nat)
    requires Closed(keys) && q in keys
    ensures k <= |Steps(rest)| && Descend(keys, q, rest).0 == q + Steps(rest)[..k]
    ensures q + Steps(rest)[..k] in keys
    ensures forall j: nat :: k < j <= |Steps(rest)| ==> q + Steps(rest)[..j] !in keys
    decreases if rest.Some? then |rest.value| + 1 else 0
  {
    k := 0;
    assert q == q + Steps(rest)[..0];
    if rest.Some? {
      var (token, next) := Separate(rest.value, SLASH);
      if token != "" {
        assert Steps(rest) == [token] + Steps(next);
        if q + [token] in keys {
          var k' := DescendLongest(keys, q + [token], next);
          k := k' + 1;
          StepsShift(q, token, Steps(next));
        } else {
          NothingBeyond(keys, q, token, Steps(next));
        }
      }
    }
  }

  lemma StepsShift(q: Path, token: string, steps: Path)
    ensures q + ([token] + steps) == q + [token] + steps
    ensures forall j: nat :: 0 < j <= |steps| + 1 ==> q + ([token] + steps)[..j] == q + [token] + steps[..j - 1]
    ensures forall j: nat :: j <= |steps| ==> q + ([token] + steps)[..j + 1] == q + [token] + steps[..j]
  {
  }

  lemma NothingBeyond(keys: set<Path>, q: Path, token: string, steps: Path)
    requires Closed(keys) && q + [token] !in keys
    ensures forall j: nat :: 0 < j <= |steps| + 1 ==> q + ([token] + steps)[..j] !in keys
  {
    forall j: nat | 0 < j <= |steps| + 1
      ensures q + ([token] + steps)[..j] !in keys
    {
      var p := q + ([token] + steps)[..j];
      assert p[..|q| + 1] == q + [token];
      if p in keys {
        Ancestor(keys, p, |q| + 1);
        assert false;
      }
    }
  }

  lemma {:induction false} Ancestor(keys: set<Path>, p: Path, n: nat)
    requires Closed(keys) && p in keys && n <= |p|
    ensures p[..n] in keys
    decreases |p|
  {
    if n == |p| {
      assert p[..n] == p;
    } else {
      Ancestor(keys, Parent(p), n);
      assert Parent(p)[..n] == p[..n];
    }
  }

  // ----- Opening

  /** No token is empty but perhaps the last. */
  predicate NoInteriorGap(s: string) {
    var tokens := Split(s, SLASH);
    forall i :: 0 <= i < |tokens| - 1 ==> tokens[i] != ""
  }

  /** A walk that finds every step stops at the end of them, with nothing left to read exactly
      when no token but the last is empty. */
  lemma {:induction false} DescendAll(keys: set<Path>, q: Path, s: string)
    requires forall k: nat :: k <= |Steps(Some(s))| ==> q + Steps(Some(s))[..k] in keys
    ensures Descend(keys, q, Some(s)).0 == q + Steps(Some(s))
    ensures Descend(keys, q, Some(s)).1.None? <==> NoInteriorGap(s)
    decreases |s|
  {
    SplitStep(s, SLASH);
    var (token, next) := Separate(s, SLASH);
    if token == "" {
      assert Steps(Some(s)) == [] && q + [] == q;
      assert next.None? ==> |Split(s, SLASH)| == 1;
      assert next.Some? ==> Split(s, SLASH)[0] == "";
    } else {
      assert Steps(Some(s)) == [token] + Steps(next);
      StepsShift(q, token, Steps(next));
      assert q + [token] in keys by {
        assert ([token] + Steps(next))[..1] == [token];
      }
      if next.None? {
        assert Steps(next) == [] && Descend(keys, q + [token], None) == (q + [token], None);
      } else {
        DescendAll(keys, q + [token], next.value);
        GapCons(token, s, next.value);
      }
    }
  }

  lemma GapCons(token: string, s: string, next: string)
    requires token != "" && Split(s, SLASH) == [token] + Split(next, SLASH)
    ensures NoInteriorGap(s) <==> NoInteriorGap(next)
  {
    var t, u := Split(s, SLASH), Split(next, SLASH);
    assert forall i :: 0 <= i < |u| ==> t[i + 1] == u[i];
    if NoInteriorGap(s) {
      forall i | 0 <= i < |u| - 1
        ensures u[i] != ""
      {
        assert t[i + 1] != "";
      }
    }
  }

  /** VFS::findDirectory: only directories, with flag FS_DIRECTORY, that have storage are asked. */
  function Find(find: (File, string) -> Option<File>, node: Option<File>, name: string): Option<File> {
    if node.Some? && node.value.flags / 0x02 % 2 == 1 && node.value.storage then find(node.value, name) else None
  }

  function FindAll(find: (File, string) -> Option<File>, node: Option<File>, names: seq<string>): Option<File>
    decreases |names|
  {
    if names == [] then node
    else
      var next := Find(find, node, names[0]);
      if next.None? then None else FindAll(find, next, names[1..])
  }

  /** Each file of the chain but the last has storage and bit 0x02 set in its flags, and its storage
      answers the next one for the name at that place. */
  ghost predicate Answered(find: (File, string) -> Option<File>, chain: seq<File>, names: seq<string>) {
    && |chain| == |names| + 1
    && forall i :: 0 <= i < |names| ==>
         chain[i].storage && chain[i].flags / 0x02 % 2 == 1 && find(chain[i], names[i]) == Some(chain[i + 1])
  }

  lemma AnsweredCons(find: (File, string) -> Option<File>, first: File, chain: seq<File>, names: seq<string>)
    requires names != [] && Answered(find, chain, names[1..])
    requires first.storage && first.flags / 0x02 % 2 == 1 && find(first, names[0]) == Some(chain[0])
    ensures Answered(find, [first] + chain, names)
  {
    var all := [first] + chain;
    forall i | 0 <= i < |names|
      ensures all[i].storage && all[i].flags / 0x02 % 2 == 1 && find(all[i], names[i]) == Some(all[i + 1])
    {
      if i > 0 {
        assert names[i] == names[1..][i - 1];
      }
    }
  }

  lemma AnsweredTail(find: (File, string) -> Option<File>, chain: seq<File>, names: seq<string>)
    requires names != [] && Answered(find, chain, names)
    ensures Answered(find, chain[1..], names[1..])
  {
    forall i | 0 <= i < |names[1..]|
      ensures var c := chain[1..];
        c[i].storage && c[i].flags / 0x02 % 2 == 1 && find(c[i], names[1..][i]) == Some(c[i + 1])
    {
      assert chain[i + 1].storage;
    }
  }

  /** Asking for all the names finds g if and only if such a chain leads from the node to g. */
  lemma {:induction false} FindAllIff(find: (File, string) -> Option<File>, node: Option<File>, names: seq<string>,
                                      g: File)
    ensures FindAll(find, node, names) == Some(g) <==>
            exists chain :: Answered(find, chain, names) && node == Some(chain[0]) && chain[|names|] == g
    decreases |names|
  {
    if names == [] {
      assert node == Some(g) ==> Answered(find, [g], names);
    } else {
      var next := Find(find, node, names[0]);
      FindAllIff(find, next, names[1..], g);
      if FindAll(find, node, names) == Some(g) {
        var chain :| Answered(find, chain, names[1..]) && next == Some(chain[0]) && chain[|names| - 1] == g;
        AnsweredCons(find, node.value, chain, names);
        assert ([node.value] + chain)[|names|] == g;
      }
      if chain :| Answered(find, chain, names) && node == Some(chain[0]) && chain[|names|] == g {
        AnsweredTail(find, chain, names);
        assert next == Some(chain[1..][0]) && chain[1..][|names| - 1] == g;
      }
    }
  }

  /** The node a path leads to, and the text left over; the root path is left whole. */
  function Lookup(keys: set<Path>, path: string): (Path, Option<string>)
    requires path != ""
  {
    if path == SLASH then ([], Some(path)) else Descend(keys, [], Some(path[1..]))
  }

  lemma {:induction false} DescendIn(keys: set<Path>, q: Path, rest: Option<string>)
    requires q in keys
    ensures Descend(keys, q, rest).0 in keys
    decreases if rest.Some? then |rest.value| + 1 else 0
  {
    if rest.Some? {
      var (token, next) := Separate(rest.value, SLASH);
      if token != "" && q + [token] in keys {
        DescendIn(keys, q + [token], next);
      }
    }
  }

  /** openFile: the file of the mount, if nothing of the path was left over; else the storage
      of that file is asked for every token of the whole path. */
  function Open(m: Table, path: string, find: (File, string) -> Option<File>): Option<File>
    requires path != "" && [] in m
  {
    var (q, left) := Lookup(m.Keys, path);
    DescendIn(m.Keys, [], Some(path[1..]));
    if left.None? then m[q] else FindAll(find, m[q], Split(path, SLASH))
  }

  predicate AsksStorage(m: Table, path: string)
    requires path != ""
  {
    Lookup(m.Keys, path).1.Some?
  }

  /** Where storage is asked, opening finds g if and only if a chain of answers for all tokens of
      the whole path leads from the file of the mount to g. */
  lemma OpenAsksIff(m: Table, path: string, find: (File, string) -> Option<File>, g: File)
    requires [] in m && path != "" && AsksStorage(m, path)
    ensures var (q, names) := (Lookup(m.Keys, path).0, Split(path, "/"));
      && q in m
      && (Open(m, path, find) == Some(g) <==>
          exists chain: seq<File> ::
            && |chain| == |names| + 1 && m[q] == Some(chain[0]) && chain[|names|] == g
            && forall i :: 0 <= i < |names| ==>
                 chain[i].storage && chain[i].flags / 0x02 % 2 == 1 && find(chain[i], names[i]) == Some(chain[i + 1]))
  {
    var (q, names) := (Lookup(m.Keys, path).0, Split(path, "/"));
    DescendIn(m.Keys, [], Some(path[1..]));
    FindAllIff(find, m[q], names, g);
    if Open(m, path, find) == Some(g) {
      var chain :| Answered(find, chain, names) && m[q] == Some(chain[0]) && chain[|names|] == g;
      assert |chain| == |names| + 1;
    }
    if chain: seq<File> :|
      && |chain| == |names| + 1 && m[q] == Some(chain[0]) && chain[|names|] == g
      && forall i :: 0 <= i < |names| ==>
           chain[i].storage && chain[i].flags / 0x02 % 2 == 1 && find(chain[i], names[i]) == Some(chain[i + 1])
    {
      assert Answered(find, chain, names);
    }
  }

  /** Opening "/" asks the storage of the root's file for the empty token, and the storage of what
      that answers for the empty token again. */
  lemma OpenRootIff(m: Table, find: (File, string) -> Option<File>, g: File)
    requires [] in m
    ensures AsksStorage(m, "/")
    ensures Open(m, "/", find) == Some(g) <==>
            exists n: File, k: File ::
              && m[[]] == Some(n) && n.storage && n.flags / 0x02 % 2 == 1 && find(n, "") == Some(k)
              && k.storage && k.flags / 0x02 % 2 == 1 && find(k, "") == Some(g)
  {
    assert "/"[1..] == "" && Split("", "/") == [""];
    assert Split("/", "/") == ["", ""];
    assert FindAll(find, m[[]], ["", ""]) == Open(m, "/", find);
    var n := m[[]];
    var k := Find(find, n, "");
    assert ["", ""][1..] == [""] && [""][1..] == [];
    assert FindAll(find, k, [""]) == Find(find, k, "") || k.None?;
    if Open(m, "/", find) == Some(g) {
      assert k.Some? && n == Some(n.value) && k == Some(k.value);
    }
  }

  /** After a mount, opening the same path asks no storage exactly when no token but the last is
      empty, and then it gives the mounted file. */
  lemma OpenAfterMount(m: Table, path: string, f: Option<File>, find: (File, string) -> Option<File>)
    requires [] in m && path != "" && path != SLASH
    ensures var r := Mounted(m, [], Steps(Some(path[1..])), f);
      && [] in r && (AsksStorage(r, path) <==> !NoInteriorGap(path[1..]))
      && (NoInteriorGap(path[1..]) ==> Open(r, path, find) == f)
  {
    var steps := Steps(Some(path[1..]));
    var r := Mounted(m, [], steps, f);
    MountedIs(m, [], steps, f);
    forall k: nat | k <= |steps|
      ensures [] + steps[..k] in r.Keys
    {
      assert IsPrefix([] + steps[..k], [], steps);
    }
    DescendAll(r.Keys, [], path[1..]);
  }

  // ----- When nothing is left over

  /** Token i, behind the ones before it, is a step that the table has. */
  predicate StepIn(keys: set<Path>, q: Path, tokens: seq<string>, i: nat)
    requires i < |tokens|
  {
    tokens[i] != "" && q + tokens[..i + 1] in keys
  }

  /** Every token but the last is such a step. */
  ghost predicate Reached(keys: set<Path>, q: Path, tokens: seq<string>) {
    forall i :: 0 <= i < |tokens| - 1 ==> StepIn(keys, q, tokens, i)
  }

  lemma StepInCons(keys: set<Path>, q: Path, token: string, tokens: seq<string>, i: nat)
    requires i < |tokens|
    ensures StepIn(keys, q, [token] + tokens, i + 1) <==> StepIn(keys, q + [token], tokens, i)
  {
    assert q + ([token] + tokens)[..i + 2] == q + [token] + tokens[..i + 1];
  }

  lemma ReachedCons(keys: set<Path>, q: Path, token: string, tokens: seq<string>)
    requires |tokens| > 0
    ensures Reached(keys, q, [token] + tokens) <==>
            token != "" && q + [token] in keys && Reached(keys, q + [token], tokens)
  {
    var all := [token] + tokens;
    assert all[..1] == [token];
    assert StepIn(keys, q, all, 0) <==> token != "" && q + [token] in keys;
    forall i | 0 <= i < |tokens| - 1
      ensures StepIn(keys, q, all, i + 1) <==> StepIn(keys, q + [token], tokens, i)
    {
      StepInCons(keys, q, token, tokens, i);
    }
    if StepIn(keys, q, all, 0) && Reached(keys, q + [token], tokens) {
      forall i | 0 <= i < |all| - 1
        ensures StepIn(keys, q, all, i)
      {
        if i > 0 {
          assert StepIn(keys, q + [token], tokens, i - 1);
          StepInCons(keys, q, token, tokens, i - 1);
        }
      }
    }
  }

  /** The walk uses up the whole text if and only if every token but the last is a step of the
      table; the last one may be missing. It then stops at the path itself if that is there, and
      at its parent if not. */
  lemma {:induction false} UsedUpIff(keys: set<Path>, q: Path, s: string)
    ensures var (p, left) := Descend(keys, q, Some(s));
      var t := Split(s, SLASH);
      && (left.None? <==> Reached(keys, q, t))
      && (left.None? ==> p == if t[|t| - 1] != "" && q + t in keys then q + t else q + Parent(t))
    decreases |s|
  {
    SplitStep(s, SLASH);
    var (token, next) := Separate(s, SLASH);
    var t := Split(s, SLASH);
    if next.None? {
      assert token == s && t == [token] && Parent(t) == [] && q + [] == q;
      assert Descend(keys, q + [token], None) == (q + [token], None);
    } else {
      var u := Split(next.value, SLASH);
      assert t == [token] + u && Parent(t) == [token] + Parent(u);
      ReachedCons(keys, q, token, u);
      if token != "" && q + [token] in keys {
        UsedUpIff(keys, q + [token], next.value);
        StepsShift(q, token, u);
        StepsShift(q, token, Parent(u));
      }
    }
  }

  /** Opening asks no storage if and only if the path is not the root and every token but the last
      names a mount point. It then gives the file of the mount, whatever storage would say; and where
      it asks, nothing is found if no storage answers. */
  lemma AsksStorageIff(m: Table, path: string, find: (File, string) -> Option<File>)
    requires path != ""
    ensures AsksStorage(m, path) <==> path == "/" || !Reached(m.Keys, [], Split(path[1..], "/"))
    ensures [] in m && !AsksStorage(m, path) ==>
              Lookup(m.Keys, path).0 in m && Open(m, path, find) == m[Lookup(m.Keys, path).0]
    ensures [] in m && AsksStorage(m, path) && (forall f, name :: find(f, name) == None) ==>
              Open(m, path, find) == None
  {
    UsedUpIff(m.Keys, [], path[1..]);
    if [] in m {
      DescendIn(m.Keys, [], Some(path[1..]));
    }
  }

  /** A path that is not in the table opens without asking storage if and only if its parent is in
      the table; the file is then that of the parent. A path such as "/x" always does, with the file
      of the root. */
  lemma OpensAsParent(m: Table, path: string, find: (File, string) -> Option<File>)
    requires Closed(m.Keys) && path != "" && path != SLASH
    requires var t := Split(path[1..], SLASH); t[|t| - 1] != "" && t !in m
    ensures var t := Split(path[1..], SLASH);
      && (!AsksStorage(m, path) <==> "" !in Parent(t) && Parent(t) in m)
      && (!AsksStorage(m, path) ==> Open(m, path, find) == m[Parent(t)])
      && (|t| == 1 ==> !AsksStorage(m, path) && Open(m, path, find) == m[[]])
  {
    var t := Split(path[1..], SLASH);
    UsedUpIff(m.Keys, [], path[1..]);
    ReachedIsParent(m.Keys, t);
    assert [] + t == t && [] + Parent(t) == Parent(t);
  }

  /** In a table with all parents, the last of the steps stands for all of them. */
  lemma ReachedIsParent(keys: set<Path>, t: Path)
    requires Closed(keys) && t != []
    ensures Reached(keys, [], t) <==> "" !in Parent(t) && Parent(t) in keys
  {
    var parent := Parent(t);
    forall i | 0 <= i < |parent|
      ensures StepIn(keys, [], t, i) ==> parent[i] != "" && parent[..i + 1] in keys
      ensures parent[i] != "" && parent in keys ==> StepIn(keys, [], t, i)
    {
      assert [] + t[..i + 1] == parent[..i + 1];
      if parent in keys {
        Ancestor(keys, parent, i + 1);
      }
    }
    if Reached(keys, [], t) && |parent| > 0 {
      assert StepIn(keys, [], t, |parent| - 1);
      assert parent[..|parent| - 1 + 1] == parent;
    }
  }
}
