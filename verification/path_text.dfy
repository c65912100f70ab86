/**
 Path strings and their component lists (packages/mcp/src/research/workspace-path.ts, lines 14 to 33):
 splitting, cleaning, joining, and the containment test on strings.
 */
module PathText {
  type Path = seq<string>

  // ---------------------------------------------------------------- splitting and joining

  function Split(text: string): (parts: seq<string>)
    ensures |parts| >= 1
  {
    if text == "" then [""]
    else
      var rest := Split(text[1..]);
      if text[0] == '/' then [""] + rest else [[text[0]] + rest[0]] + rest[1..]
  }

  function Join(parts: seq<string>): string {
    if parts == [] then ""
    else if |parts| == 1 then parts[0]
    else parts[0] + "/" + Join(parts[1..])
  }

  predicate Skipped(part: string) { part == "" || part == "." }

  function Keep(parts: seq<string>): seq<string> {
    if parts == [] then []
    else if Skipped(parts[0]) then Keep(parts[1..])
    else [parts[0]] + Keep(parts[1..])
  }

  /** The components a path text names, `..` included. */
  function Names(text: string): seq<string> { Keep(Split(text)) }

  predicate Absolute(text: string) { text != "" && text[0] == '/' }

  /** A component that stands for itself: not empty, not a dot name, no slash. */
  predicate PlainName(name: string) {
    name != "" && name != "." && name != ".." && '/' !in name
  }

  predicate Plain(p: Path) { forall i :: 0 <= i < |p| ==> PlainName(p[i]) }

  /** What `Names` can produce. */
  predicate NameLike(p: seq<string>) { forall i :: 0 <= i < |p| ==> p[i] == ".." || PlainName(p[i]) }

  function CleanPath(text: string): string {
    var body := Join(Names(text));
    if Absolute(text) then "/" + body else if body == "" then "." else body
  }

  function JoinPath(base: string, child: string): string {
    CleanPath(if Absolute(child) then child else base + "/" + child)
  }

  function StartsWith(text: string, prefix: string): bool { prefix <= text }

  /** Whether the resolved path `resolved` lies outside the resolved directory `root`. */
  function EscapesRoot(resolved: string, root: string): bool {
    var a, b := CleanPath(resolved), CleanPath(root);
    a != b && !StartsWith(a, if b == "/" then "/" else b + "/")
  }

  /** Components with a slash before each; the empty path is the empty string. */
  function Render(p: Path): string {
    if p == [] then "" else "/" + p[0] + Render(p[1..])
  }

  function RenderRoot(p: Path): string { if p == [] then "/" else Render(p) }

  // ---------------------------------------------------------------- split and join are inverse

  lemma {:induction false} SplitHasNoSlashes(text: string)
    ensures forall i :: 0 <= i < |Split(text)| ==> '/' !in Split(text)[i]
  {
    if text != "" {
      SplitHasNoSlashes(text[1..]);
    }
  }

  /** Splitting a text with a slash in it splits both sides. */
  lemma {:induction false} SplitAtSlash(a: string, b: string)
    ensures Split(a + "/" + b) == Split(a) + Split(b)
  {
    if a == "" {
      assert a + "/" + b == "/" + b && ("/" + b)[1..] == b;
    } else {
      assert (a + "/" + b)[1..] == a[1..] + "/" + b;
      SplitAtSlash(a[1..], b);
    }
  }

  lemma {:induction false} SplitPlain(name: string)
    requires '/' !in name
    ensures Split(name) == [name]
  {
    if name != "" {
      SplitPlain(name[1..]);
      assert [name[0]] + name[1..] == name;
    }
  }

  lemma {:induction false} SplitJoin(parts: seq<string>)
    requires parts != [] && forall i :: 0 <= i < |parts| ==> '/' !in parts[i]
    ensures Split(Join(parts)) == parts
  {
    SplitPlain(parts[0]);
    if |parts| > 1 {
      SplitAtSlash(parts[0], Join(parts[1..]));
      SplitJoin(parts[1..]);
    }
  }

  lemma {:induction false} KeepConcat(a: seq<string>, b: seq<string>)
    ensures Keep(a + b) == Keep(a) + Keep(b)
  {
    if a == [] {
      assert a + b == b;
    } else {
      assert (a + b)[1..] == a[1..] + b;
      KeepConcat(a[1..], b);
    }
  }

  lemma {:induction false} KeepKept(parts: seq<string>)
    requires forall i :: 0 <= i < |parts| ==> !Skipped(parts[i])
    ensures Keep(parts) == parts
  {
    if parts != [] {
      KeepKept(parts[1..]);
    }
  }

  lemma {:induction false} KeepIsNameLike(parts: seq<string>)
    requires forall i :: 0 <= i < |parts| ==> '/' !in parts[i]
    ensures NameLike(Keep(parts))
  {
    if parts != [] {
      KeepIsNameLike(parts[1..]);
    }
  }

  lemma NamesAreNameLike(text: string)
    ensures NameLike(Names(text))
  {
    SplitHasNoSlashes(text);
    KeepIsNameLike(Split(text));
  }

  /** Cleaning keeps what a path names and whether it is absolute. */
  lemma CleanKeepsNames(text: string)
    ensures Names(CleanPath(text)) == Names(text)
    ensures Absolute(CleanPath(text)) <==> Absolute(text)
    ensures CleanPath(CleanPath(text)) == CleanPath(text)
  {
    var names := Names(text);
    NamesAreNameLike(text);
    if names == [] {
      assert Split("/") == ["", ""] by {
        assert "/"[1..] == "";
      }
      SplitPlain(".");
    } else {
      SplitJoin(names);
      KeepKept(names);
      SplitAtSlash("", Join(names));
      assert "" + "/" + Join(names) == "/" + Join(names);
      assert Split("/" + Join(names)) == [""] + names;
      KeepConcat([""], names);
      JoinStart(names);
    }
  }

  lemma JoinStart(names: seq<string>)
    requires names != [] && NameLike(names)
    ensures Join(names) != "" && Join(names)[0] != '/'
  {
  }

  /** A relative child adds its names to the base's; an absolute child replaces them. */
  lemma JoinPathNames(base: string, child: string)
    ensures Names(JoinPath(base, child)) == if Absolute(child) then Names(child) else Names(base) + Names(child)
  {
    if Absolute(child) {
      CleanKeepsNames(child);
    } else {
      CleanKeepsNames(base + "/" + child);
      SplitAtSlash(base, child);
      KeepConcat(Split(base), Split(child));
    }
  }

  // ---------------------------------------------------------------- rendering

  lemma {:induction false} RenderConcat(a: Path, b: Path)
    ensures Render(a + b) == Render(a) + Render(b)
  {
    if a == [] {
      assert a + b == b;
    } else {
      assert (a + b)[1..] == a[1..] + b;
      RenderConcat(a[1..], b);
    }
  }

  lemma {:induction false} RenderIsJoin(p: Path)
    requires p != []
    ensures Render(p) == "/" + Join(p)
  {
    if |p| > 1 {
      RenderIsJoin(p[1..]);
    }
  }

  /** A text stands for `p`: its rendering, possibly with the extra slash a root directory leaves. */
  predicate Stands(text: string, p: Path) {
    text == Render(p) || text == "/" + Render(p)
  }

  lemma StandsNames(text: string, p: Path)
    requires NameLike(p) && Stands(text, p)
    ensures Names(text) == p
  {
    if p == [] {
      assert Split("/") == ["", ""] by { assert "/"[1..] == ""; }
    } else {
      RenderIsJoin(p);
      SplitJoin(p);
      KeepKept(p);
      SplitAtSlash("", Join(p));
      assert "" + "/" + Join(p) == Render(p);
      KeepConcat([""], p);
      SplitAtSlash("", Render(p));
      assert "" + "/" + Render(p) == "/" + Render(p);
      KeepConcat([""], [""] + p);
    }
  }

  lemma CleanIsRender(text: string)
    requires Absolute(text)
    ensures CleanPath(text) == RenderRoot(Names(text))
  {
    if Names(text) != [] {
      RenderIsJoin(Names(text));
    }
  }

  // ---------------------------------------------------------------- containment

  lemma {:induction false} RenderPrefix(x: Path, y: Path)
    requires NameLike(x) && NameLike(y)
    ensures StartsWith(Render(x), Render(y) + "/") <==> y < x
  {
    if y < x {
      assert x == y + x[|y|..];
      RenderConcat(y, x[|y|..]);
    }
    if StartsWith(Render(x), Render(y) + "/") {
      if y == [] {
        assert x != [];
      } else {
        FirstNamesAgree(x, y);
        RenderPrefix(x[1..], y[1..]);
        assert y == [y[0]] + y[1..] && x == [x[0]] + x[1..];
      }
    }
  }

  /** Two slash-free segments followed by a slash agree when one text is a prefix of the other. */
  lemma SegmentsAgree(a: string, tailA: string, b: string, tailB: string)
    requires '/' !in a && '/' !in b
    requires tailB != "" && tailB[0] == '/' && (tailA == "" || tailA[0] == '/')
    requires b + tailB <= a + tailA
    ensures a == b && tailB <= tailA
  {
    var long, short := a + tailA, b + tailB;
    assert forall i :: 0 <= i < |short| ==> long[i] == short[i];
    assert short[|b|] == '/';
    assert long[|b|] == '/' && |a| <= |b|;
    assert long[|a|] == short[|a|] == '/' && |b| <= |a|;
    assert a == long[..|a|] && b == short[..|b|];
    assert tailA == long[|a|..] && tailB == short[|b|..];
  }

  lemma FirstNamesAgree(x: Path, y: Path)
    requires NameLike(x) && NameLike(y) && y != []
    requires StartsWith(Render(x), Render(y) + "/")
    ensures x != [] && x[0] == y[0] && StartsWith(Render(x[1..]), Render(y[1..]) + "/")
  {
    assert x != [] by { assert |Render([])| == 0; }
    assert '/' !in x[0] && '/' !in y[0];
    StartsWithSlash(x);
    StartsWithSlash(y);
    hide Render, NameLike;
    SlashedAgree(x[0], Render(x[1..]), y[0], Render(y[1..]));
  }

  lemma SlashedAgree(a: string, tailA: string, b: string, tailB: string)
    requires '/' !in a && '/' !in b
    requires (tailA == "" || tailA[0] == '/') && (tailB == "" || tailB[0] == '/')
    requires ("/" + (b + tailB)) + "/" <= "/" + (a + tailA)
    ensures a == b && tailB + "/" <= tailA
  {
    assert ("/" + (b + tailB)) + "/" == "/" + (b + (tailB + "/"));
    SlashPrefix(b + (tailB + "/"), a + tailA);
    SegmentsAgree(a, tailA, b, tailB + "/");
  }

  lemma StartsWithSlash(p: Path)
    requires p != []
    ensures Render(p) == "/" + (p[0] + Render(p[1..]))
    ensures p[1..] == [] || Render(p[1..]) != ""
    ensures Render(p[1..]) == "" || Render(p[1..])[0] == '/'
  {
    assert ("/" + p[0]) + Render(p[1..]) == "/" + (p[0] + Render(p[1..]));
  }

  lemma SlashPrefix(v: string, u: string)
    requires "/" + v <= "/" + u
    ensures v <= u
  {
    assert ("/" + v)[1..] == v && ("/" + u)[1..] == u;
  }

  /** On absolute paths the string test is exactly: the root's names are not a prefix of the path's. */
  lemma EscapesRootExactly(resolved: string, root: string)
    requires Absolute(resolved) && Absolute(root)
    ensures EscapesRoot(resolved, root) <==> !(Names(root) <= Names(resolved))
  {
    var x, y := Names(resolved), Names(root);
    NamesAreNameLike(resolved);
    NamesAreNameLike(root);
    CleanIsRender(resolved);
    CleanIsRender(root);
    RootIsSlash(y);
    if y != [] {
      RenderRootInjective(x, y);
      RenderPrefix(x, y);
      assert x != [] || !StartsWith("/", Render(y) + "/");
    }
  }

  lemma RootIsSlash(p: Path)
    requires NameLike(p)
    ensures RenderRoot(p) == "/" <==> p == []
  {
  }

  lemma RenderRootInjective(x: Path, y: Path)
    requires NameLike(x) && NameLike(y)
    ensures RenderRoot(x) == RenderRoot(y) <==> x == y
  {
    NamesOfRoot(x);
    NamesOfRoot(y);
  }

  lemma NamesOfRoot(p: Path)
    requires NameLike(p)
    ensures Names(RenderRoot(p)) == p && Absolute(RenderRoot(p))
  {
    StandsNames(RenderRoot(p), p);
  }
}
