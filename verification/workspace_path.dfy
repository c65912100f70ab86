/**
 Physical path resolution (packages/mcp/src/research/workspace-path.ts, lines 78 to 118).

 `Eval` is plain, uncached resolution with a bound on how deeply links may nest: a path resolves when
 some bound is enough. The memoised, re-entrant walk is proved to find exactly that result, and to
 report a loop exactly when no bound is enough. Links are any finite map from component lists to texts.
 */
module WorkspacePath {
  import opened Wrappers
  import opened PathText

  type Links = map<Path, string>

  datatype Outcome = Done(path: Path) | OutOfFuel | NulByte

  datatype Fault = SymlinkLoop | EmbeddedNul

  // ---------------------------------------------------------------- uncached resolution

  predicate HasNul(p: Path) { exists i :: 0 <= i < |p| && '\0' in p[i] }

  function Parent(p: Path): Path { if p == [] then [] else p[..|p| - 1] }

  /** Where a text is resolved from: an absolute text starts at the root. */
  function StartOf(current: Path, text: string): Path { if Absolute(text) then [] else current }

  /** Resolve `names` from `current`, following links nested at most `fuel` deep. */
  ghost function Eval(links: Links, fuel: nat, current: Path, names: seq<string>): Outcome
    decreases fuel, |names|
  {
    if names == [] then Done(current)
    else if names[0] == ".." then Eval(links, fuel, Parent(current), names[1..])
    else
      var next := current + [names[0]];
      if HasNul(next) then NulByte
      else if next !in links then Eval(links, fuel, next, names[1..])
      else if fuel == 0 then OutOfFuel
      else match Follow(links, fuel - 1, next)
        case Done(p) => Eval(links, fuel, p, names[1..])
        case other => other
  }

  /** Resolve the link at `key`. */
  ghost function Follow(links: Links, fuel: nat, key: Path): Outcome
    requires key in links
    decreases fuel, |Names(links[key])| + 1
  {
    Eval(links, fuel, StartOf(Parent(key), links[key]), Names(links[key]))
  }

  /** Some bound is enough, and the path found. */
  ghost predicate ResolvesTo(links: Links, current: Path, names: seq<string>, p: Path) {
    exists fuel: nat :: Eval(links, fuel, current, names) == Done(p)
  }

  ghost predicate Diverges(links: Links, current: Path, names: seq<string>) {
    forall fuel: nat :: Eval(links, fuel, current, names) == OutOfFuel
  }

  ghost predicate MeetsNul(links: Links, current: Path, names: seq<string>) {
    exists fuel: nat :: Eval(links, fuel, current, names) == NulByte
  }

  /** More fuel never changes a finished result. */
  lemma {:induction false} MoreFuel(links: Links, f: nat, g: nat, current: Path, names: seq<string>)
    requires f <= g && Eval(links, f, current, names) != OutOfFuel
    ensures Eval(links, g, current, names) == Eval(links, f, current, names)
    decreases f, |names|
  {
    if names != [] {
      if names[0] == ".." {
        MoreFuel(links, f, g, Parent(current), names[1..]);
      } else {
        var next := current + [names[0]];
        if !HasNul(next) {
          if next !in links {
            MoreFuel(links, f, g, next, names[1..]);
          } else {
            MoreFuel(links, f - 1, g - 1, StartOf(Parent(next), links[next]), Names(links[next]));
            match Follow(links, f - 1, next)
            case Done(p) => MoreFuel(links, f, g, p, names[1..]);
            case _ =>
          }
        }
      }
    }
  }

  /** Every text resolves, meets a NUL, or diverges; never two of these, and never to two paths. */
  lemma OneOutcome(links: Links, current: Path, names: seq<string>, p: Path, q: Path)
    ensures (exists r :: ResolvesTo(links, current, names, r)) || MeetsNul(links, current, names)
            || Diverges(links, current, names)
    ensures ResolvesTo(links, current, names, p) && ResolvesTo(links, current, names, q) ==> p == q
    ensures ResolvesTo(links, current, names, p) ==> !MeetsNul(links, current, names) && !Diverges(links, current, names)
    ensures MeetsNul(links, current, names) ==> !Diverges(links, current, names)
  {
    if fuel: nat :| Eval(links, fuel, current, names) != OutOfFuel {
      var outcome := Eval(links, fuel, current, names);
      assert outcome.Done? ==> ResolvesTo(links, current, names, outcome.path);
      forall g: nat ensures Eval(links, g, current, names) in {outcome, OutOfFuel} {
        if g <= fuel {
          if Eval(links, g, current, names) != OutOfFuel { MoreFuel(links, g, fuel, current, names); }
        } else {
          MoreFuel(links, fuel, g, current, names);
        }
      }
    }
  }

  // ---------------------------------------------------------------- what resolution guarantees

  /** No prefix of the path, itself included, is a link. */
  ghost predicate LinkFree(links: Links, p: Path) {
    forall n :: 1 <= n <= |p| ==> p[..n] !in links
  }

  /** A physical path: plain components, no NUL, nothing left to follow. */
  ghost predicate Physical(links: Links, p: Path) {
    Plain(p) && !HasNul(p) && LinkFree(links, p)
  }

  lemma {:induction false} EvalIsPhysical(links: Links, fuel: nat, current: Path, names: seq<string>)
    requires Physical(links, current) && NameLike(names)
    requires Eval(links, fuel, current, names).Done?
    ensures Physical(links, Eval(links, fuel, current, names).path)
    decreases fuel, |names|
  {
    if names != [] {
      if names[0] == ".." {
        var up := Parent(current);
        assert forall n :: 1 <= n <= |up| ==> up[..n] == current[..n];
        EvalIsPhysical(links, fuel, up, names[1..]);
      } else {
        var next := current + [names[0]];
        if next !in links {
          forall n | 1 <= n <= |next| ensures next[..n] !in links {
            assert next[..n] == if n == |next| then next else current[..n];
          }
          EvalIsPhysical(links, fuel, next, names[1..]);
        } else {
          var link := links[next];
          NamesAreNameLike(link);
          assert Parent(next) == current;
          EvalIsPhysical(links, fuel - 1, StartOf(current, link), Names(link));
          EvalIsPhysical(links, fuel, Follow(links, fuel - 1, next).path, names[1..]);
        }
      }
    }
  }

  /** A physical path resolves to itself, without following anything. */
  lemma {:induction false} PhysicalIsFixed(links: Links, fuel: nat, done: Path, rest: Path)
    requires Physical(links, done + rest)
    ensures Eval(links, fuel, done, rest) == Done(done + rest)
    decreases |rest|
  {
    if rest == [] {
      assert done + rest == done;
    } else {
      var next := done + [rest[0]];
      assert next + rest[1..] == done + rest;
      assert next == (done + rest)[..|next|];
      assert PlainName((done + rest)[|done|]);
      assert !HasNul(next) by {
        assert forall i :: 0 <= i < |next| ==> next[i] == (done + rest)[i];
      }
      PhysicalIsFixed(links, fuel, next, rest[1..]);
    }
  }

  // ---------------------------------------------------------------- loops

  /** If resolving the link at `key` needs the same link resolved first, it never ends. */
  lemma {:induction false} SelfDependent(links: Links, key: Path, fuel: nat)
    requires key in links
    requires forall f: nat :: Follow(links, f, key) != OutOfFuel ==> f >= 1 && Follow(links, f - 1, key) != OutOfFuel
    ensures Follow(links, fuel, key) == OutOfFuel
  {
    if fuel > 0 {
      SelfDependent(links, key, fuel - 1);
    }
  }

  // ---------------------------------------------------------------- texts of paths in progress

  /** `current.slice(0, max(current.lastIndexOf("/"), 0))`. */
  function LastSlash(text: string): (r: int)
    ensures -1 <= r < |text|
    ensures r >= 0 ==> text[r] == '/'
    ensures forall i :: r < i < |text| ==> text[i] != '/'
  {
    if text == "" then -1
    else if text[|text| - 1] == '/' then |text| - 1
    else LastSlash(text[..|text| - 1])
  }

  function DropLast(text: string): string {
    var cut := LastSlash(text);
    text[..if cut < 0 then 0 else cut]
  }

  lemma LastSlashBefore(stem: string, name: string)
    requires '/' !in name
    ensures DropLast(stem + "/" + name) == stem
  {
    var text := stem + "/" + name;
    assert text[|stem|] == '/';
    assert forall i :: |stem| < i < |text| ==> text[i] == name[i - |stem| - 1];
    assert LastSlash(text) == |stem|;
  }

  lemma RenderChild(up: Path, name: string)
    ensures Render(up + [name]) == Render(up) + "/" + name
    ensures "/" + Render(up + [name]) == ("/" + Render(up)) + "/" + name
  {
    RenderConcat(up, [name]);
    assert Render([name]) == "/" + name;
  }

  lemma DropLastIsParent(text: string, p: Path)
    requires Plain(p) && Stands(text, p)
    ensures Stands(DropLast(text), Parent(p)) && Plain(Parent(p))
  {
    if p == [] {
      assert text == "" || text == "/";
    } else {
      var up, name := Parent(p), p[|p| - 1];
      assert p == up + [name];
      RenderChild(up, name);
      if text == Render(p) {
        LastSlashBefore(Render(up), name);
      } else {
        LastSlashBefore("/" + Render(up), name);
      }
    }
  }

  lemma AppendIsChild(text: string, p: Path, name: string)
    requires Plain(p) && Stands(text, p) && PlainName(name)
    ensures Stands(text + "/" + name, p + [name]) && Plain(p + [name])
    ensures Names(text + "/" + name) == p + [name]
  {
    RenderChild(p, name);
    StandsNames(text + "/" + name, p + [name]);
  }

  // ---------------------------------------------------------------- the memo

  /** Every text a link's own path can be written as. */
  ghost function KeyTexts(links: Links): set<string> {
    (set p | p in links :: Render(p)) + (set p | p in links :: "/" + Render(p))
  }

  /** What a memo entry says: the link is being followed, or this is where it leads. */
  ghost predicate MemoOk(links: Links, seen: map<string, Option<string>>) {
    forall k :: k in seen ==> EntryOk(links, k, seen[k])
  }

  ghost predicate EntryOk(links: Links, k: string, entry: Option<string>) {
    && Names(k) in links && Plain(Names(k)) && !HasNul(Names(k)) && Stands(k, Names(k))
    && (entry.Some? ==> exists p: Path, f: nat :: LeadsTo(links, k, entry.value, p, f))
  }

  ghost predicate LeadsTo(links: Links, k: string, text: string, p: Path, f: nat)
    requires Names(k) in links
  {
    Plain(p) && Stands(text, p) && Follow(links, f, Names(k)) == Done(p)
  }

  /** Every link being followed cannot be resolved unless `names` can be, from `current`. */
  ghost predicate AllWaitFor(links: Links, seen: map<string, Option<string>>, current: Path, names: seq<string>) {
    forall k :: k in seen && seen[k].None? && Names(k) in links ==> WaitsFor(links, Names(k), current, names)
  }

  ghost predicate WaitsFor(links: Links, key: Path, current: Path, names: seq<string>)
    requires key in links
  {
    forall f: nat :: Follow(links, f, key) != OutOfFuel ==> Eval(links, f, current, names) != OutOfFuel
  }

  /** The memo only grows, settled entries stay, and links being followed stay so. */
  ghost predicate Extends(before: map<string, Option<string>>, after: map<string, Option<string>>) {
    && before.Keys <= after.Keys
    && (forall k :: k in before ==> after[k] == before[k])
    && (forall k :: k in after && k !in before ==> after[k].Some?)
  }

  /** From the whole text, having reached `current` with `rest` still to go. */
  ghost predicate Reached(links: Links, from: Path, names: seq<string>, current: Path, rest: seq<string>, need: nat) {
    && (forall f: nat :: f >= need ==> Eval(links, f, from, names) == Eval(links, f, current, rest))
    && (forall f: nat :: Eval(links, f, from, names) != OutOfFuel ==> Eval(links, f, current, rest) != OutOfFuel)
  }

  // ---------------------------------------------------------------- one component of the walk

  lemma ReachedUp(links: Links, from: Path, names: seq<string>, current: Path, rest: seq<string>, need: nat)
    requires Reached(links, from, names, current, rest, need) && rest != [] && rest[0] == ".."
    ensures Reached(links, from, names, Parent(current), rest[1..], need)
  {
  }

  lemma ReachedPlain(links: Links, from: Path, names: seq<string>, current: Path, rest: seq<string>, need: nat)
    requires Reached(links, from, names, current, rest, need) && rest != [] && rest[0] != ".."
    requires !HasNul(current + [rest[0]]) && current + [rest[0]] !in links
    ensures Reached(links, from, names, current + [rest[0]], rest[1..], need)
  {
  }

  lemma ReachedNul(links: Links, from: Path, names: seq<string>, current: Path, rest: seq<string>, need: nat)
    requires Reached(links, from, names, current, rest, need) && rest != [] && rest[0] != ".."
    requires HasNul(current + [rest[0]])
    ensures MeetsNul(links, from, names)
  {
    assert Eval(links, need, from, names) == NulByte;
  }

  /** Following a link whose end is known. */
  lemma ReachedThrough(links: Links, from: Path, names: seq<string>, current: Path, rest: seq<string>, need: nat,
                       p: Path, f: nat)
    requires Reached(links, from, names, current, rest, need) && rest != [] && rest[0] != ".."
    requires !HasNul(current + [rest[0]]) && current + [rest[0]] in links
    requires Follow(links, f, current + [rest[0]]) == Done(p)
    ensures Reached(links, from, names, p, rest[1..], if need <= f then f + 1 else need)
  {
    var key := current + [rest[0]];
    var more := if need <= f then f + 1 else need;
    forall g: nat | g >= more ensures Eval(links, g, from, names) == Eval(links, g, p, rest[1..]) {
      FollowMore(links, f, g - 1, key);
    }
    forall g: nat | Eval(links, g, from, names) != OutOfFuel ensures Eval(links, g, p, rest[1..]) != OutOfFuel {
      assert Eval(links, g, current, rest) != OutOfFuel;
      FollowSame(links, f, g - 1, key);
    }
  }

  lemma FollowMore(links: Links, f: nat, g: nat, key: Path)
    requires key in links && f <= g && Follow(links, f, key) != OutOfFuel
    ensures Follow(links, g, key) == Follow(links, f, key)
  {
    MoreFuel(links, f, g, StartOf(Parent(key), links[key]), Names(links[key]));
  }

  lemma FollowSame(links: Links, f: nat, g: nat, key: Path)
    requires key in links && Follow(links, f, key) != OutOfFuel && Follow(links, g, key) != OutOfFuel
    ensures Follow(links, g, key) == Follow(links, f, key)
  {
    if f <= g {
      FollowMore(links, f, g, key);
    } else {
      FollowMore(links, g, f, key);
    }
  }

  /** A link that leads nowhere, or to a NUL, decides the whole text. */
  lemma ReachedLoop(links: Links, from: Path, names: seq<string>, current: Path, rest: seq<string>, need: nat)
    requires Reached(links, from, names, current, rest, need) && rest != [] && rest[0] != ".."
    requires !HasNul(current + [rest[0]]) && current + [rest[0]] in links
    requires forall f: nat :: Follow(links, f, current + [rest[0]]) == OutOfFuel
    ensures Diverges(links, from, names)
  {
    forall f: nat ensures Eval(links, f, from, names) == OutOfFuel {
      assert Eval(links, f, current, rest) == OutOfFuel;
    }
  }

  lemma ReachedNulThrough(links: Links, from: Path, names: seq<string>, current: Path, rest: seq<string>, need: nat, f: nat)
    requires Reached(links, from, names, current, rest, need) && rest != [] && rest[0] != ".."
    requires !HasNul(current + [rest[0]]) && current + [rest[0]] in links
    requires Follow(links, f, current + [rest[0]]) == NulByte
    ensures MeetsNul(links, from, names)
  {
    var g := if need <= f then f + 1 else need;
    FollowMore(links, f, g - 1, current + [rest[0]]);
    assert Eval(links, g, from, names) == NulByte;
  }

  /** Meeting a link that is already being followed: its resolution needs itself. */
  lemma OpenLinkLoops(links: Links, current: Path, rest: seq<string>)
    requires rest != [] && rest[0] != ".."
    requires !HasNul(current + [rest[0]]) && current + [rest[0]] in links
    requires WaitsFor(links, current + [rest[0]], current, rest)
    ensures forall f: nat :: Follow(links, f, current + [rest[0]]) == OutOfFuel
  {
    var key := current + [rest[0]];
    forall f: nat | Follow(links, f, key) != OutOfFuel ensures f >= 1 && Follow(links, f - 1, key) != OutOfFuel {
      assert Eval(links, f, current, rest) != OutOfFuel;
    }
    forall f: nat ensures Follow(links, f, key) == OutOfFuel {
      SelfDependent(links, key, f);
    }
  }

  /** What waited for the rest of the text waits for it after any number of components. */
  lemma StillWaits(links: Links, seen: map<string, Option<string>>, from: Path, names: seq<string>,
                   current: Path, rest: seq<string>, need: nat)
    requires AllWaitFor(links, seen, from, names) && Reached(links, from, names, current, rest, need)
    ensures AllWaitFor(links, seen, current, rest)
  {
  }

  /** Following one more link: everything open, and the link itself, now waits for its text. */
  lemma OpenWaits(links: Links, seen: map<string, Option<string>>, current: Path, rest: seq<string>, k: string)
    requires AllWaitFor(links, seen, current, rest) && rest != [] && rest[0] != ".."
    requires !HasNul(current + [rest[0]]) && current + [rest[0]] in links && Names(k) == current + [rest[0]]
    ensures var link := links[current + [rest[0]]];
            AllWaitFor(links, seen[k := None], StartOf(current, link), Names(link))
  {
    var key := current + [rest[0]];
    var link := links[key];
    assert Parent(key) == current;
    forall j | j in seen[k := None] && seen[k := None][j].None? && Names(j) in links
      ensures WaitsFor(links, Names(j), StartOf(current, link), Names(link))
    {
      if j != k {
        assert WaitsFor(links, Names(j), current, rest);
        forall f: nat | Follow(links, f, Names(j)) != OutOfFuel
          ensures Eval(links, f, StartOf(current, link), Names(link)) != OutOfFuel
        {
          assert Eval(links, f, current, rest) != OutOfFuel;
          FollowMore(links, f - 1, f, key);
        }
      }
    }
  }

  /** `k` is a text of the link at the child `name` of `at`. */
  ghost predicate OpenEntry(links: Links, k: string, at: Path, name: string) {
    var key := at + [name];
    key in links && Plain(key) && !HasNul(key) && Stands(k, key) && Names(k) == key
  }

  lemma SetEntry(links: Links, seen: map<string, Option<string>>, k: string, entry: Option<string>)
    requires MemoOk(links, seen) && EntryOk(links, k, entry)
    ensures MemoOk(links, seen[k := entry])
  {
  }

  /** Settling an entry that was open during the walk in between. */
  lemma SettleMemo(links: Links, before: map<string, Option<string>>, after: map<string, Option<string>>,
                   k: string, text: string, p: Path, f: nat)
    requires k !in before && Extends(before[k := None], after) && MemoOk(links, after)
    requires Names(k) in links && LeadsTo(links, k, text, p, f)
    ensures MemoOk(links, after[k := Some(text)]) && Extends(before, after[k := Some(text)])
  {
    hide Names, Follow, Stands, Plain, HasNul;
    assert k in before[k := None];
    assert EntryOk(links, k, after[k]);
    SetEntry(links, after, k, Some(text));
    assert forall j :: j in before ==> j in before[k := None];
  }

  lemma KeyTextIn(links: Links, k: string, p: Path)
    requires p in links && Stands(k, p)
    ensures k in KeyTexts(links)
  {
  }

  /** Entering the component `key` ends at `p`: where its link leads, or itself. */
  ghost predicate Entered(links: Links, key: Path, p: Path, f: nat) {
    !HasNul(key) && if key in links then Follow(links, f, key) == Done(p) else p == key
  }

  ghost predicate LeadsNowhere(links: Links, key: Path) {
    !HasNul(key) && key in links && forall f: nat :: Follow(links, f, key) == OutOfFuel
  }

  ghost predicate LeadsToNul(links: Links, key: Path, f: nat) {
    HasNul(key) || (key in links && Follow(links, f, key) == NulByte)
  }

  lemma ReachedNext(links: Links, from: Path, names: seq<string>, current: Path, rest: seq<string>, need: nat,
                    p: Path, f: nat)
    requires Reached(links, from, names, current, rest, need) && rest != [] && rest[0] != ".."
    requires Entered(links, current + [rest[0]], p, f)
    ensures Reached(links, from, names, p, rest[1..], if need <= f then f + 1 else need)
  {
    if current + [rest[0]] in links {
      ReachedThrough(links, from, names, current, rest, need, p, f);
    } else {
      ReachedPlain(links, from, names, current, rest, need);
    }
  }

  /** A failed component decides the whole text; for a NUL, with this much fuel. */
  lemma FailedAt(links: Links, from: Path, names: seq<string>, current: Path, rest: seq<string>, need: nat,
                 fault: Fault, f: nat) returns (fuel: nat)
    requires Reached(links, from, names, current, rest, need) && rest != [] && rest[0] != ".."
    requires fault == SymlinkLoop ==> LeadsNowhere(links, current + [rest[0]])
    requires fault == EmbeddedNul ==> LeadsToNul(links, current + [rest[0]], f)
    ensures fault == SymlinkLoop ==> Diverges(links, from, names)
    ensures fault == EmbeddedNul ==> Eval(links, fuel, from, names) == NulByte
  {
    fuel := 0;
    if fault == SymlinkLoop {
      ReachedLoop(links, from, names, current, rest, need);
    } else {
      if HasNul(current + [rest[0]]) {
        ReachedNul(links, from, names, current, rest, need);
      } else {
        ReachedNulThrough(links, from, names, current, rest, need, f);
      }
      fuel :| Eval(links, fuel, from, names) == NulByte;
    }
  }

  // ---------------------------------------------------------------- the memoised walk

  class Resolver {
    const links: Links
    var seen: map<string, Option<string>>

    constructor (links: Links)
      ensures this.links == links && seen == map[]
    {
      this.links := links;
      seen := map[];
    }

    /** The link text at `next`; a component list that is no link, or cannot be read, has none. */
    function ReadLink(next: string): (r: Result<Option<string>, Fault>)
    {
      if '\0' in next then Err(EmbeddedNul)
      else if Names(next) in links then Ok(Some(links[Names(next)]))
      else Ok(None)
    }

    /** One ordinary component: from the memo, as a link to follow, or as it stands. */
    method Enter(current: string, name: string, ghost at: Path, ghost togo: seq<string>)
      returns (r: Result<string, Fault>, ghost p: Path, ghost f: nat)
      requires Plain(at) && Stands(current, at) && PlainName(name) && togo != [] && togo[0] == name
      requires MemoOk(links, seen) && AllWaitFor(links, seen, at, togo)
      modifies this`seen
      ensures r.Ok? ==> MemoOk(links, seen) && Extends(old(seen), seen)
      ensures r.Ok? ==> Plain(p) && Stands(r.value, p) && Entered(links, at + [name], p, f)
      ensures r == Err(SymlinkLoop) ==> LeadsNowhere(links, at + [name])
      ensures r == Err(EmbeddedNul) ==> LeadsToNul(links, at + [name], f)
      decreases KeyTexts(links) - seen.Keys, 1
    {
      var next := current + "/" + name;
      AppendIsChild(current, at, name);
      ghost var key := at + [name];
      p, f := key, 0;
      if next in seen {
        assert EntryOk(links, next, seen[next]);
        if seen[next].None? {
          assert WaitsFor(links, key, at, togo);
          OpenLinkLoops(links, at, togo);
          return Err(SymlinkLoop), p, f;
        }
        p, f :| LeadsTo(links, next, seen[next].value, p, f);
        return Ok(seen[next].value), p, f;
      }
      NulInText(next, key);
      var link := ReadLink(next);
      if link.Err? { return Err(link.error), p, f; }
      if link.value.None? { return Ok(next), p, f; }
      assert OpenEntry(links, next, at, name);
      r, p, f := FollowLink(current, next, link.value.value, at, togo);
    }

    /** Follow the link at `next`, which is open in the memo meanwhile and settled afterwards. */
    method FollowLink(current: string, next: string, link: string, ghost at: Path, ghost togo: seq<string>)
      returns (r: Result<string, Fault>, ghost p: Path, ghost f: nat)
      requires Plain(at) && Stands(current, at) && togo != [] && togo[0] != ".."
      requires MemoOk(links, seen) && AllWaitFor(links, seen, at, togo) && next !in seen
      requires OpenEntry(links, next, at, togo[0]) && links[at + [togo[0]]] == link
      modifies this`seen
      ensures r.Ok? ==> MemoOk(links, seen) && Extends(old(seen), seen)
      ensures r.Ok? ==> Plain(p) && Stands(r.value, p) && Follow(links, f, at + [togo[0]]) == Done(p)
      ensures r == Err(SymlinkLoop) ==> forall g: nat :: Follow(links, g, at + [togo[0]]) == OutOfFuel
      ensures r == Err(EmbeddedNul) ==> Follow(links, f, at + [togo[0]]) == NulByte
      decreases KeyTexts(links) - seen.Keys, 0
    {
      ghost var key := at + [togo[0]];
      OpenWaits(links, seen, at, togo, next);
      KeyTextIn(links, next, key);
      assert Parent(key) == at;
      ghost var before := seen;
      seen := seen[next := None];
      r, p, f := Walk(current, link, at);
      if r.Ok? {
        SettleMemo(links, before, seen, next, r.value, p, f);
        seen := seen[next := Some(r.value)];
      }
    }

    /** Walk `rest` from `start`, following links through the memo. `from` is the path `start` stands for. */
    method Walk(start: string, rest: string, ghost from: Path)
      returns (r: Result<string, Fault>, ghost end: Path, ghost fuel: nat)
      requires Plain(from) && Stands(start, from) && MemoOk(links, seen)
      requires AllWaitFor(links, seen, StartOf(from, rest), Names(rest))
      modifies this`seen
      ensures r.Ok? ==> MemoOk(links, seen) && Extends(old(seen), seen)
      ensures r.Ok? ==> Plain(end) && Stands(r.value, end)
                        && Eval(links, fuel, StartOf(from, rest), Names(rest)) == Done(end)
      ensures r == Err(SymlinkLoop) ==> Diverges(links, StartOf(from, rest), Names(rest))
      ensures r == Err(EmbeddedNul) ==> Eval(links, fuel, StartOf(from, rest), Names(rest)) == NulByte
      decreases KeyTexts(links) - seen.Keys, 2
    {
      var current := if Absolute(rest) then "" else start;
      ghost var at := StartOf(from, rest);
      ghost var names := Names(rest);
      ghost var need: nat := 0;
      end, fuel := at, 0;
      var parts := Split(rest);
      SplitHasNoSlashes(rest);
      var i := 0;
      while i < |parts|
        invariant 0 <= i <= |parts|
        invariant Plain(at) && Stands(current, at)
        invariant MemoOk(links, seen) && Extends(old(seen), seen)
        invariant Reached(links, StartOf(from, rest), names, at, Keep(parts[i..]), need)
      {
        var name := parts[i];
        ghost var togo := Keep(parts[i..]);
        assert parts[i..][1..] == parts[i + 1..];
        i := i + 1;
        if name == "" || name == "." { continue; }
        assert togo[1..] == Keep(parts[i..]);
        if name == ".." {
          DropLastIsParent(current, at);
          ReachedUp(links, StartOf(from, rest), names, at, togo, need);
          current, at := DropLast(current), Parent(at);
        } else {
          StillWaitsAfter(old(seen), from, rest, at, togo, need);
          var entered, p, f := Enter(current, name, at, togo);
          if entered.Err? {
            fuel := FailedAt(links, StartOf(from, rest), names, at, togo, need, entered.error, f);
            return entered, end, fuel;
          }
          ReachedNext(links, StartOf(from, rest), names, at, togo, need, p, f);
          current, at, need := entered.value, p, if need <= f then f + 1 else need;
        }
      }
      end, fuel := at, need;
      r := Ok(current);
    }

    /** Links open before the call wait for what is left of the text; none have been left open since. */
    lemma StillWaitsAfter(before: map<string, Option<string>>, from: Path, rest: string, at: Path, togo: seq<string>, need: nat)
      requires AllWaitFor(links, before, StartOf(from, rest), Names(rest)) && Extends(before, seen)
      requires Reached(links, StartOf(from, rest), Names(rest), at, togo, need)
      ensures AllWaitFor(links, seen, at, togo)
    {
      StillWaits(links, before, StartOf(from, rest), Names(rest), at, togo, need);
      assert forall k :: k in seen && seen[k].None? ==> k in before && before[k].None?;
    }
  }

  /** A rendered path contains a NUL exactly when one of its components does. */
  lemma {:induction false} NulInRender(p: Path)
    ensures '\0' in Render(p) <==> HasNul(p)
  {
    if p != [] {
      NulInRender(p[1..]);
      assert p == [p[0]] + p[1..];
      if HasNul(p) && '\0' !in p[0] {
        var i :| 0 <= i < |p| && '\0' in p[i];
        assert '\0' in p[1..][i - 1];
      }
      if HasNul(p[1..]) {
        var i :| 0 <= i < |p[1..]| && '\0' in p[1..][i];
        assert '\0' in p[i + 1];
      }
    }
  }

  lemma NulInText(text: string, p: Path)
    requires Stands(text, p)
    ensures '\0' in text <==> HasNul(p)
  {
    NulInRender(p);
  }

  // ---------------------------------------------------------------- resolvePath

  /** Whether components end in a slash once joined, and dot names resolved, for an absolute text. */
  function ResolveDots(names: seq<string>, done: Path): Path
    decreases |names|
  {
    if names == [] then done
    else if names[0] == ".." then ResolveDots(names[1..], Parent(done))
    else ResolveDots(names[1..], done + [names[0]])
  }

  /** `path.posix.normalize` on an absolute text: dot names resolved, slashes collapsed, a trailing slash kept. */
  function NormalizeAbsolute(text: string): string
    requires Absolute(text)
  {
    var body := ResolveDots(Names(text), []);
    if body == [] then "/" else Render(body) + if text[|text| - 1] == '/' then "/" else ""
  }

  lemma {:induction false} ResolveDotsPlain(names: seq<string>, done: Path)
    requires Plain(names)
    ensures ResolveDots(names, done) == done + names
    decreases |names|
  {
    if names != [] {
      ResolveDotsPlain(names[1..], done + [names[0]]);
      assert done + [names[0]] + names[1..] == done + names;
    } else {
      assert done + names == done;
    }
  }

  lemma NormalizeStands(text: string, p: Path)
    requires Plain(p) && Stands(text, p) && text != ""
    ensures Absolute(text) && NormalizeAbsolute(text) == RenderRoot(p)
  {
    hide Names;
    StandsNames(text, p);
    ResolveDotsPlain(p, []);
    assert [] + p == p;
    if p != [] {
      var up, name := Parent(p), p[|p| - 1];
      assert p == up + [name];
      RenderChild(up, name);
      assert text[|text| - 1] == name[|name| - 1];
    }
  }

  /** `r` is what plain resolution says: a path, a loop, or a NUL, each exactly when it has it. */
  ghost predicate Decides(links: Links, from: Path, names: seq<string>, r: Result<string, Fault>) {
    && (r.Ok? <==> exists p :: ResolvesTo(links, from, names, p))
    && (forall p :: ResolvesTo(links, from, names, p) ==> r == Ok(RenderRoot(p)))
    && (r == Err(SymlinkLoop) <==> Diverges(links, from, names))
    && (r == Err(EmbeddedNul) <==> MeetsNul(links, from, names))
  }

  lemma DecidesFound(links: Links, from: Path, names: seq<string>, end: Path, fuel: nat)
    requires Eval(links, fuel, from, names) == Done(end)
    ensures Decides(links, from, names, Ok(RenderRoot(end)))
  {
    assert ResolvesTo(links, from, names, end);
    forall p | ResolvesTo(links, from, names, p) ensures p == end {
      OneOutcome(links, from, names, p, end);
    }
    OneOutcome(links, from, names, end, end);
  }

  lemma DecidesFailed(links: Links, from: Path, names: seq<string>, fault: Fault, fuel: nat)
    requires fault == SymlinkLoop ==> Diverges(links, from, names)
    requires fault == EmbeddedNul ==> Eval(links, fuel, from, names) == NulByte
    ensures Decides(links, from, names, Err(fault))
  {
    forall p ensures !ResolvesTo(links, from, names, p) {
      OneOutcome(links, from, names, p, p);
    }
    OneOutcome(links, from, names, [], []);
  }

  /**
   The absolute physical form of `target`. `cwd` is an absolute, cleaned directory. The answer is the
   uncached one: a path, a symlink loop, or an embedded NUL, each exactly when plain resolution has it.
   */
  method ResolvePath(links: Links, target: string, cwd: string, ghost base: Path) returns (r: Result<string, Fault>)
    requires Plain(base) && cwd == RenderRoot(base)
    ensures Decides(links, StartOf(base, target), Names(target), r)
  {
    var text := CleanPath(target);
    CleanKeepsNames(target);
    var resolver := new Resolver(links);
    var walked, end, fuel := resolver.Walk(if Absolute(text) then "" else cwd, text, StartOf(base, text));
    if walked.Ok? {
      var found := if walked.value == "" then "/" else walked.value;
      NormalizeStands(found, end);
      DecidesFound(links, StartOf(base, target), Names(target), end, fuel);
      r := Ok(NormalizeAbsolute(found));
    } else {
      DecidesFailed(links, StartOf(base, target), Names(target), walked.error, fuel);
      r := Err(walked.error);
    }
  }

  /** A resolved path is physical, and resolving it again, from anywhere, changes nothing. */
  lemma ResolvedIsFixed(links: Links, base: Path, target: string, p: Path, elsewhere: Path)
    requires Absolute(target) || Physical(links, base)
    requires ResolvesTo(links, StartOf(base, target), Names(target), p)
    ensures Physical(links, p)
    ensures ResolvesTo(links, StartOf(elsewhere, RenderRoot(p)), Names(RenderRoot(p)), p)
  {
    var fuel: nat :| Eval(links, fuel, StartOf(base, target), Names(target)) == Done(p);
    NamesAreNameLike(target);
    EvalIsPhysical(links, fuel, StartOf(base, target), Names(target));
    NamesOfRoot(p);
    assert [] + p == p;
    PhysicalIsFixed(links, 0, [], p);
    assert Eval(links, 0, StartOf(elsewhere, RenderRoot(p)), Names(RenderRoot(p))) == Done(p);
  }

  /** Confinement on resolved paths is containment of component lists. */
  lemma ConfinementExactly(links: Links, p: Path, root: Path)
    requires Physical(links, p) && Physical(links, root)
    ensures EscapesRoot(RenderRoot(p), RenderRoot(root)) <==> !(root <= p)
  {
    NamesOfRoot(p);
    NamesOfRoot(root);
    EscapesRootExactly(RenderRoot(p), RenderRoot(root));
  }
}
