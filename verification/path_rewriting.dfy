/**
 Path resolution as rewriting, one component at a time
 (packages/mcp/src/research/workspace-path.ts, lines 78 to 118).

 A walker stands somewhere and has names left. A name moves it down, two dots move it up, and a link puts the
 names of its text in front of those left, from the root if the text starts with a slash. Nothing nests, nothing
 is remembered and nothing is bounded. The resolution the source performs, which resolves each link by itself and
 remembers where it led, is proved to end exactly where this walker ends.
 */
module PathRewriting {
  import opened Wrappers
  import opened PathText
  import opened WorkspacePath

  datatype Walk = Walk(at: Path, left: seq<string>)

  /** The next component has a NUL in it. */
  predicate Blocked(w: Walk) {
    w.left != [] && w.left[0] != ".." && exists i :: 0 <= i <= |w.at| && '\0' in (w.at + [w.left[0]])[i]
  }

  predicate Stuck(w: Walk) { w.left == [] || Blocked(w) }

  function Advance(links: Links, w: Walk): Walk
    requires w.left != []
  {
    var name, rest := w.left[0], w.left[1..];
    var next := w.at + [name];
    if name == ".." then Walk(if w.at == [] then [] else w.at[..|w.at| - 1], rest)
    else if next in links then Walk(if links[next] != "" && links[next][0] == '/' then [] else w.at, Names(links[next]) + rest)
    else Walk(next, rest)
  }

  /** After `n` steps the walker is at its end, `e`. */
  ghost predicate Ends(links: Links, n: nat, w: Walk, e: Walk) {
    if n == 0 then w == e && Stuck(e) else !Stuck(w) && Ends(links, n - 1, Advance(links, w), e)
  }

  /** The walker gets from `w` to its end, `e`. */
  ghost predicate Arrives(links: Links, w: Walk, e: Walk) { exists n: nat :: Ends(links, n, w, e) }

  lemma BlockedIsNul(w: Walk)
    requires w.left != []
    ensures Blocked(w) <==> w.left[0] != ".." && HasNul(w.at + [w.left[0]])
  {
    assert |w.at + [w.left[0]]| == |w.at| + 1;
  }

  /** From `names` resolved, on with `rest`: what nests is what comes first. */
  lemma {:induction false} WalkThrough(links: Links, fuel: nat, current: Path, names: seq<string>, rest: seq<string>, m: nat, e: Walk)
    returns (n: nat)
    requires Eval(links, fuel, current, names).Done?
    requires Ends(links, m, Walk(Eval(links, fuel, current, names).path, rest), e)
    ensures Ends(links, n, Walk(current, names + rest), e)
    decreases fuel, |names|
  {
    hide HasNul, Blocked, Names;
    var w := Walk(current, names + rest);
    if names == [] {
      assert names + rest == rest;
      return m;
    }
    BlockedIsNul(w);
    assert w.left[1..] == names[1..] + rest;
    var next := current + [names[0]];
    if names[0] == ".." {
      n := WalkThrough(links, fuel, Parent(current), names[1..], rest, m, e);
    } else if next !in links {
      n := WalkThrough(links, fuel, next, names[1..], rest, m, e);
    } else {
      var p := Follow(links, fuel - 1, next).path;
      var n1 := WalkThrough(links, fuel, p, names[1..], rest, m, e);
      assert Parent(next) == current;
      n := WalkThrough(links, fuel - 1, StartOf(current, links[next]), Names(links[next]), names[1..] + rest, n1, e);
    }
    n := n + 1;
  }

  /** Resolution that meets a NUL is a walk that gets stuck before its end. */
  lemma {:induction false} WalkToNul(links: Links, fuel: nat, current: Path, names: seq<string>, rest: seq<string>)
    returns (n: nat, e: Walk)
    requires Eval(links, fuel, current, names) == NulByte
    ensures Ends(links, n, Walk(current, names + rest), e) && Blocked(e)
    decreases fuel, |names|
  {
    hide HasNul, Blocked, Names;
    var w := Walk(current, names + rest);
    BlockedIsNul(w);
    assert w.left[1..] == names[1..] + rest;
    var next := current + [names[0]];
    if names[0] == ".." {
      n, e := WalkToNul(links, fuel, Parent(current), names[1..], rest);
    } else if HasNul(next) {
      return 0, w;
    } else if next !in links {
      n, e := WalkToNul(links, fuel, next, names[1..], rest);
    } else {
      assert Parent(next) == current;
      var start, inner := StartOf(current, links[next]), Names(links[next]);
      if Follow(links, fuel - 1, next) == NulByte {
        n, e := WalkToNul(links, fuel - 1, start, inner, names[1..] + rest);
      } else {
        var p := Follow(links, fuel - 1, next).path;
        n, e := WalkToNul(links, fuel, p, names[1..], rest);
        n := WalkThrough(links, fuel - 1, start, inner, names[1..] + rest, n, e);
      }
    }
    n := n + 1;
  }

  /** A walk that ends resolves whatever its first names are: to a NUL, or to where it goes on with the others. */
  lemma {:induction false} WalkResolves(links: Links, n: nat, current: Path, names: seq<string>, rest: seq<string>, e: Walk)
    returns (fuel: nat, k: nat)
    requires Ends(links, n, Walk(current, names + rest), e)
    ensures Eval(links, fuel, current, names) != OutOfFuel && k <= n
    ensures Eval(links, fuel, current, names).Done? ==> Ends(links, k, Walk(Eval(links, fuel, current, names).path, rest), e)
    ensures Eval(links, fuel, current, names) == NulByte ==> Blocked(e)
    decreases n, |names|
  {
    hide HasNul, Blocked, Names;
    var w := Walk(current, names + rest);
    if names == [] {
      assert names + rest == rest;
      return 0, n;
    }
    BlockedIsNul(w);
    assert w.left[0] == names[0] && w.left[1..] == names[1..] + rest;
    if n == 0 { return 0, 0; }
    var next := current + [names[0]];
    if names[0] == ".." {
      fuel, k := WalkResolves(links, n - 1, Parent(current), names[1..], rest, e);
    } else if next !in links {
      fuel, k := WalkResolves(links, n - 1, next, names[1..], rest, e);
    } else {
      assert Parent(next) == current;
      var start, inner := StartOf(current, links[next]), Names(links[next]);
      var f, m := WalkResolves(links, n - 1, start, inner, names[1..] + rest, e);
      if Eval(links, f, start, inner) == NulByte { return f + 1, 0; }
      var p := Eval(links, f, start, inner).path;
      var g;
      g, k := WalkResolves(links, m, p, names[1..], rest, e);
      fuel := if f + 1 > g then f + 1 else g;
      LinkResolves(links, f, g, fuel, current, names, p);
    }
  }

  /** A link first, and then the other names. */
  lemma LinkResolves(links: Links, f: nat, g: nat, fuel: nat, current: Path, names: seq<string>, p: Path)
    requires names != [] && names[0] != ".." && current + [names[0]] in links && !HasNul(current + [names[0]])
    requires var link := links[current + [names[0]]]; Eval(links, f, StartOf(current, link), Names(link)) == Done(p)
    requires Eval(links, g, p, names[1..]) != OutOfFuel && fuel >= f + 1 && fuel >= g
    ensures Eval(links, fuel, current, names) == Eval(links, g, p, names[1..])
  {
    hide HasNul, Names;
    var next := current + [names[0]];
    assert Parent(next) == current;
    MoreFuel(links, f, fuel - 1, StartOf(current, links[next]), Names(links[next]));
    MoreFuel(links, g, fuel, p, names[1..]);
  }

  lemma EndIsEnd(links: Links, p: Path)
    ensures Ends(links, 0, Walk(p, []), Walk(p, [])) && !Blocked(Walk(p, []))
  {
  }

  /** What is resolved is walked. */
  lemma Walked(links: Links, current: Path, names: seq<string>, fuel: nat) returns (e: Walk)
    requires Eval(links, fuel, current, names) != OutOfFuel
    ensures Arrives(links, Walk(current, names), e)
    ensures Eval(links, fuel, current, names) == NulByte ==> Blocked(e)
    ensures Eval(links, fuel, current, names).Done? ==> e == Walk(Eval(links, fuel, current, names).path, [])
  {
    assert names + [] == names;
    var n: nat;
    if Eval(links, fuel, current, names) == NulByte {
      n, e := WalkToNul(links, fuel, current, names, []);
    } else {
      e := Walk(Eval(links, fuel, current, names).path, []);
      EndIsEnd(links, e.at);
      n := WalkThrough(links, fuel, current, names, [], 0, e);
    }
    assert Ends(links, n, Walk(current, names), e);
  }

  /** The walker ends at a path exactly if resolution leads there. */
  lemma ResolvesAsWalked(links: Links, current: Path, names: seq<string>, p: Path)
    ensures ResolvesTo(links, current, names, p) <==> Arrives(links, Walk(current, names), Walk(p, []))
  {
    hide Arrives, Blocked;
    if ResolvesTo(links, current, names, p) {
      var fuel: nat :| Eval(links, fuel, current, names) == Done(p);
      var e := Walked(links, current, names, fuel);
    }
    if Arrives(links, Walk(current, names), Walk(p, [])) {
      Ended(links, current, names, Walk(p, []));
      EndIsEnd(links, p);
    }
  }

  /** It gets stuck at a NUL exactly if resolution meets one, and walks for ever exactly if resolution loops. */
  lemma StuckAsWalked(links: Links, current: Path, names: seq<string>)
    ensures MeetsNul(links, current, names) <==> exists e :: Arrives(links, Walk(current, names), e) && Blocked(e)
    ensures Diverges(links, current, names) <==> forall e :: !Arrives(links, Walk(current, names), e)
  {
    hide Arrives, Blocked;
    if fuel: nat :| Eval(links, fuel, current, names) == NulByte {
      var e := Walked(links, current, names, fuel);
    }
    if fuel: nat :| Eval(links, fuel, current, names) != OutOfFuel {
      var e := Walked(links, current, names, fuel);
    }
    forall e | Arrives(links, Walk(current, names), e)
      ensures !Diverges(links, current, names) && (Blocked(e) ==> MeetsNul(links, current, names))
    {
      Ended(links, current, names, e);
    }
  }

  lemma Ended(links: Links, current: Path, names: seq<string>, e: Walk)
    requires Arrives(links, Walk(current, names), e)
    ensures !Diverges(links, current, names)
    ensures if Blocked(e) then MeetsNul(links, current, names) else e.left == [] && ResolvesTo(links, current, names, e.at)
  {
    assert names + [] == names;
    var n: nat :| Ends(links, n, Walk(current, names), e);
    EndIsStuck(links, n, Walk(current, names), e);
    var fuel, k := WalkResolves(links, n, current, names, [], e);
    if Eval(links, fuel, current, names).Done? { EndIsEnd(links, Eval(links, fuel, current, names).path); }
  }

  lemma {:induction false} EndIsStuck(links: Links, n: nat, w: Walk, e: Walk)
    requires Ends(links, n, w, e)
    ensures Stuck(e)
    decreases n
  {
    if n > 0 { EndIsStuck(links, n - 1, Advance(links, w), e); }
  }

  /** Resolving a path gives the walker's end, a loop if it walks for ever, and a NUL if it gets stuck at one. */
  method ResolveAsWalked(links: Links, target: string, cwd: string, ghost base: Path) returns (r: Result<string, Fault>)
    requires Plain(base) && cwd == RenderRoot(base)
    ensures var w := Walk(if target != "" && target[0] == '/' then [] else base, Names(target));
            && (forall p :: Arrives(links, w, Walk(p, [])) ==> r == Ok(RenderRoot(p)))
            && (r.Ok? <==> exists p :: Arrives(links, w, Walk(p, [])))
            && (r == Err(SymlinkLoop) <==> forall e :: !Arrives(links, w, e))
            && (r == Err(EmbeddedNul) <==> exists e :: Arrives(links, w, e) && Blocked(e))
  {
    hide Arrives, Blocked, ResolvesTo, MeetsNul, Diverges, Names, RenderRoot;
    r := ResolvePath(links, target, cwd, base);
    ghost var start := StartOf(base, target);
    StuckAsWalked(links, start, Names(target));
    forall p ensures ResolvesTo(links, start, Names(target), p) <==> Arrives(links, Walk(start, Names(target)), Walk(p, [])) {
      ResolvesAsWalked(links, start, Names(target), p);
    }
  }

  // ---------------------------------------------------------------- the names of a text

  /** A slash separates names, nothing and a single dot name nothing, and anything else names itself. */
  lemma NamesExactly(a: string, b: string, name: string)
    requires '/' !in name
    ensures Names(a + "/" + b) == Names(a) + Names(b)
    ensures Names(name) == if name == "" || name == "." then [] else [name]
  {
    SplitAtSlash(a, b);
    KeepConcat(Split(a), Split(b));
    SplitPlain(name);
    KeepOne(name);
  }

  lemma KeepOne(name: string)
    ensures Keep([name]) == if name == "" || name == "." then [] else [name]
  {
    assert [name][1..] == [] && Keep([]) == [];
    assert [name] + [] == [name];
  }
}
