/** The hand-off of a client's hardware address in the script's URL: DHCP side to HTTP side. */
module ScriptUrl {
  import opened Seqs
  import opened Text
  import opened Mac

  // ---------------------------------------------------------------------------------------------
  // Go's `path` package
  // ---------------------------------------------------------------------------------------------

  /** Where the file name starts: after the last slash. */
  function FileStart(p: string): (k: nat)
    ensures k <= |p|
    ensures k > 0 ==> p[k - 1] == '/'
    ensures '/' !in p[k..]
  {
    if p == "" || p[|p| - 1] == '/' then |p| else FileStart(p[..|p| - 1])
  }

  function NoTrailingSlash(p: string): string {
    if p != "" && p[|p| - 1] == '/' then NoTrailingSlash(p[..|p| - 1]) else p
  }

  /** `path.Base`. */
  function Base(p: string): string {
    if p == "" then "."
    else
      var q := NoTrailingSlash(p);
      if q == "" then "/" else q[FileStart(q)..]
  }

  predicate Rooted(p: string) { p != "" && p[0] == '/' }

  /** A component that `path.Clean` keeps as it is. */
  predicate Plain(e: string) { e != "" && e != "." && e != ".." && '/' !in e }

  /** One component taken into the cleaned ones. */
  function Take(rooted: bool, stack: seq<string>, e: string): seq<string> {
    if e == "" || e == "." then stack
    else if e == ".." then
      if stack != [] && stack[|stack| - 1] != ".." then stack[..|stack| - 1]
      else if rooted then stack
      else stack + [e]
    else stack + [e]
  }

  function TakeAll(rooted: bool, elements: seq<string>): seq<string> {
    if elements == [] then [] else Take(rooted, TakeAll(rooted, elements[..|elements| - 1]), elements[|elements| - 1])
  }

  function Render(rooted: bool, stack: seq<string>): string {
    if rooted then "/" + Join(stack, '/') else if stack == [] then "." else Join(stack, '/')
  }

  /** `path.Clean`. */
  function Clean(p: string): string { Render(Rooted(p), TakeAll(Rooted(p), Split(p, '/'))) }

  /** `path.Dir`. */
  function Dir(p: string): string { Clean(p[..FileStart(p)]) }

  /** `path.Join` of a non-empty first element and two more. */
  function JoinPath(dir: string, a: string, b: string): string
    requires dir != ""
  {
    Clean(dir + "/" + a + "/" + b)
  }

  // ---------------------------------------------------------------------------------------------
  // The two sides
  // ---------------------------------------------------------------------------------------------

  const AUTO: string := "auto.ipxe"

  /** The path a client is given. */
  function Injected(path: string, mac: seq<byte>): string
  {
    DirIsNotEmpty(path);
    JoinPath(Dir(path), MacText(mac, ':'), Base(path))
  }

  /** The configured URL: its fields are shared by every client. */
  class Url {
    var scheme: string
    var host: string
    var path: string

    constructor (scheme: string, host: string, path: string)
      ensures this.scheme == scheme && this.host == host && this.path == path
    {
      this.scheme, this.host, this.path := scheme, host, path;
    }
  }

  /** The closure that puts the hardware address into the path. It works on a copy: nothing that was
      there before is modified, the configured URL included. */
  method InjectMac(httpScriptUrl: Url, mac: seq<byte>) returns (u: Url)
    ensures fresh(u)
    ensures u.scheme == httpScriptUrl.scheme && u.host == httpScriptUrl.host
    ensures u.path == Injected(httpScriptUrl.path, mac)
  {
    u := new Url(httpScriptUrl.scheme, httpScriptUrl.host, httpScriptUrl.path);
    var p := Base(u.path);
    DirIsNotEmpty(u.path);
    u.path := JoinPath(Dir(u.path), MacText(mac, ':'), p);
  }

  /** `getMAC`. */
  function GetMac(urlPath: string): Option<seq<byte>> { ParseMac(Base(Dir(urlPath))) }

  /** How the HTTP side looks a request up. */
  datatype Route = Unsupported | ByMac(mac: seq<byte>) | ByAddress

  function RouteOf(urlPath: string): Route {
    if Base(urlPath) != AUTO then Unsupported
    else match GetMac(urlPath)
      case Some(mac) => ByMac(mac)
      case None => ByAddress
  }

  // ---------------------------------------------------------------------------------------------
  // Paths
  // ---------------------------------------------------------------------------------------------

  lemma DirIsNotEmpty(p: string)
    ensures Dir(p) != ""
  {
    var d := p[..FileStart(p)];
    TakenPlain(Rooted(d), Split(d, '/'));
  }

  /** What is kept is never empty. */
  lemma {:induction false} TakenPlain(rooted: bool, elements: seq<string>)
    ensures Render(rooted, TakeAll(rooted, elements)) != ""
    ensures forall i :: 0 <= i < |TakeAll(rooted, elements)| ==> TakeAll(rooted, elements)[i] != ""
  {
    if elements != [] { TakenPlain(rooted, elements[..|elements| - 1]); }
    var stack := TakeAll(rooted, elements);
    if stack != [] { assert Join(stack, '/') != ""; }
  }

  lemma TakeLast(rooted: bool, elements: seq<string>, e: string)
    ensures TakeAll(rooted, elements + [e]) == Take(rooted, TakeAll(rooted, elements), e)
  {
    assert (elements + [e])[..|elements|] == elements;
  }

  lemma {:induction false} FileStartOf(x: string, e: string)
    requires '/' !in e
    ensures FileStart(x + "/" + e) == |x| + 1
    ensures FileStart(e) == 0
  {
    if e != "" {
      var last := |e| - 1;
      assert (x + "/" + e)[..|x| + 1 + last] == x + "/" + e[..last];
      FileStartOf(x, e[..last]);
    }
  }

  /** The last element of a path that ends in it. */
  lemma BaseOf(x: string, e: string)
    requires e != "" && '/' !in e
    ensures Base(x + "/" + e) == e && Base(e) == e
  {
    FileStartOf(x, e);
    assert (x + "/" + e)[|x| + 1..] == e;
    assert (x + "/" + e)[|x| + 1 + |e| - 1] == e[|e| - 1];
  }

  lemma {:induction false} JoinLast(stack: seq<string>, e: string)
    ensures Join(stack + [e], '/') == if stack == [] then e else Join(stack, '/') + "/" + e
  {
    if stack != [] {
      var rest := stack[1..];
      assert (stack + [e])[1..] == rest + [e];
      JoinLast(rest, e);
      if rest != [] {
        assert stack[0] + "/" + (Join(rest, '/') + "/" + e) == (stack[0] + "/" + Join(rest, '/')) + "/" + e;
      }
    }
  }

  /** A cleaned path with a last element: that element alone, or after some slash. */
  lemma RenderLast(rooted: bool, stack: seq<string>, e: string) returns (alone: bool, x: string)
    requires Plain(e)
    ensures Render(rooted, stack + [e]) == if alone then e else x + "/" + e
  {
    JoinLast(stack, e);
    alone := !rooted && stack == [];
    x := if stack == [] then "" else if rooted then "/" + Join(stack, '/') else Join(stack, '/');
    if rooted && stack != [] {
      assert "/" + (Join(stack, '/') + "/" + e) == ("/" + Join(stack, '/')) + "/" + e;
    }
  }

  /** Cleaning keeps a plain last element, with or without a slash behind it. */
  lemma CleanLast(p: string, before: seq<string>, e: string, after: seq<string>) returns (rooted: bool, stack: seq<string>)
    requires Plain(e) && Split(p, '/') == before + [e] + after && (after == [] || after == [""])
    ensures Clean(p) == Render(rooted, stack + [e])
    ensures stack == TakeAll(rooted, before)
  {
    rooted := Rooted(p);
    stack := TakeAll(rooted, before);
    TakeLast(rooted, before, e);
    if after == [""] {
      TakeLast(rooted, before + [e], "");
    } else {
      assert before + [e] + after == before + [e];
    }
  }

  /** The second to last element of a cleaned path that ends in two plain elements. */
  lemma DirOfTwo(rooted: bool, stack: seq<string>, m: string, e: string)
    requires Plain(m) && Plain(e)
    ensures var q := Render(rooted, stack + [m] + [e]); Base(q) == e && Base(Dir(q)) == m
  {
    var q := Render(rooted, stack + [m] + [e]);
    var front := Render(rooted, stack + [m]);
    TwoLast(rooted, stack, m, e);
    assert q == front + "/" + e;
    BaseOf(front, e);
    FileStartOf(front, e);
    var d := front + "/";
    assert q[..|front| + 1] == d;
    var alone, x := RenderLast(rooted, stack, m);
    SplitFirst(m, "", '/');
    assert Split("", '/') == [""];
    var before: seq<string>;
    if alone {
      before := [];
      SplitAppend(m, "", '/');
      assert d == m + "/" + "";
    } else {
      before := Split(x, '/');
      SplitAppend(x + "/" + m, "", '/');
      SplitAppend(x, m, '/');
      assert d == (x + "/" + m) + "/" + "";
    }
    assert Split(d, '/') == before + [m] + [""];
    var rooted2, stack2 := CleanLast(d, before, m, [""]);
    var alone2, y := RenderLast(rooted2, stack2, m);
    BaseOf(y, m);
  }

  lemma TwoLast(rooted: bool, stack: seq<string>, m: string, e: string)
    ensures Render(rooted, stack + [m] + [e]) == Render(rooted, stack + [m]) + "/" + e
  {
    JoinLast(stack + [m], e);
    if rooted {
      assert "/" + (Join(stack + [m], '/') + "/" + e) == ("/" + Join(stack + [m], '/')) + "/" + e;
    }
  }

  lemma InjectedEnds(dir: string, m: string, e: string)
    requires dir != "" && Plain(m) && Plain(e)
    ensures var q := JoinPath(dir, m, e); Base(q) == e && Base(Dir(q)) == m
  {
    var p := dir + "/" + m + "/" + e;
    SplitAppend(dir + "/" + m, e, '/');
    SplitAppend(dir, m, '/');
    SplitFirst(m, "", '/');
    SplitFirst(e, "", '/');
    var before := Split(dir, '/') + [m];
    assert Split(p, '/') == before + [e] + [];
    var rooted, stack := CleanLast(p, before, e, []);
    TakeLast(rooted, Split(dir, '/'), m);
    DirOfTwo(rooted, TakeAll(rooted, Split(dir, '/')), m, e);
  }

  lemma MacTextPlain(mac: seq<byte>)
    requires mac != []
    ensures Plain(MacText(mac, ':'))
  {
    var s := MacText(mac, ':');
    MacTextFree(mac, ':', '/');
    MacTextFree(mac, ':', '.');
    assert s != "." && s != ".." by { assert s[0] != '.'; }
  }

  /** For every configured path that ends in auto.ipxe, the path a client is given is looked up by
      exactly its hardware address, if and only if that address has 6, 8 or 20 bytes. */
  lemma ClientIsRecognised(path: string, mac: seq<byte>)
    requires Base(path) == AUTO
    ensures RouteOf(Injected(path, mac)) == ByMac(mac) <==> Accepted(|mac|)
  {
    if Accepted(|mac|) {
      DirIsNotEmpty(path);
      MacTextPlain(mac);
      assert Plain(AUTO);
      InjectedEnds(Dir(path), MacText(mac, ':'), AUTO);
      MacRoundTrip(mac, ':');
    }
  }

  /** Two clients are given the same path only if they have the same address. */
  lemma PathsTellClientsApart(path: string, a: seq<byte>, b: seq<byte>)
    requires Base(path) == AUTO && Accepted(|a|) && Accepted(|b|)
    ensures Injected(path, a) == Injected(path, b) <==> a == b
  {
    ClientIsRecognised(path, a);
    ClientIsRecognised(path, b);
  }

  // ---------------------------------------------------------------------------------------------
  // The directory
  // ---------------------------------------------------------------------------------------------

  /** An element that stays on the stack. */
  predicate Kept(e: string) { e != "" && e != "." && '/' !in e }

  /** Cleaned elements: each is kept, and ".." stands only in front, and never in a rooted path. */
  ghost predicate Normal(rooted: bool, stack: seq<string>) {
    && (forall i :: 0 <= i < |stack| ==> Kept(stack[i]))
    && (forall i :: 0 <= i < |stack| && stack[i] == ".." ==> !rooted)
    && (forall i :: 0 < i < |stack| && stack[i] == ".." ==> stack[i - 1] == "..")
  }

  lemma {:induction false} TakenNormal(rooted: bool, elements: seq<string>)
    requires AllFree(elements, '/')
    ensures Normal(rooted, TakeAll(rooted, elements))
  {
    if elements != [] {
      var front, e := elements[..|elements| - 1], elements[|elements| - 1];
      TakenNormal(rooted, front);
      TakeNormal(rooted, TakeAll(rooted, front), e);
    }
  }

  lemma TakeNormal(rooted: bool, stack: seq<string>, e: string)
    requires Normal(rooted, stack) && '/' !in e
    ensures Normal(rooted, Take(rooted, stack, e))
  {
  }

  /** Cleaning what is clean changes nothing, whatever empty elements and dots stand between. */
  lemma {:induction false} NormalTaken(rooted: bool, stack: seq<string>)
    requires Normal(rooted, stack)
    ensures TakeAll(rooted, stack) == stack
  {
    if stack != [] {
      var front, e := stack[..|stack| - 1], stack[|stack| - 1];
      NormalTaken(rooted, front);
      assert stack == front + [e];
    }
  }

  lemma {:induction false} TakeSkips(rooted: bool, skip: string, elements: seq<string>)
    requires skip == "" || skip == "."
    ensures TakeAll(rooted, [skip] + elements) == TakeAll(rooted, elements)
  {
    var all := [skip] + elements;
    if elements == [] {
      assert all[..0] == [];
    } else {
      var front, e := elements[..|elements| - 1], elements[|elements| - 1];
      assert all[..|all| - 1] == [skip] + front && all[|all| - 1] == e;
      TakeSkips(rooted, skip, front);
    }
  }

  lemma NormalParts(stack: seq<string>, rooted: bool)
    requires Normal(rooted, stack) && stack != []
    ensures Split(Join(stack, '/'), '/') == stack && !Rooted(Join(stack, '/')) && Join(stack, '/') != ""
  {
    SplitOfJoin(stack, '/');
    assert Kept(stack[0]);
    assert |stack| > 1 ==> Join(stack, '/') == stack[0] + ['/'] + Join(stack[1..], '/');
    assert Join(stack, '/')[0] == stack[0][0];
  }

  /** A rendered path is rooted as it was, and its elements clean to the stack it was rendered from. */
  lemma Rendered(rooted: bool, stack: seq<string>)
    requires Normal(rooted, stack)
    ensures var p := Render(rooted, stack); Rooted(p) == rooted && p != "" && TakeAll(rooted, Split(p, '/')) == stack
  {
    if stack == [] {
      if rooted { RenderedRoot(); } else { RenderedDot(); }
    } else {
      NormalTaken(rooted, stack);
      NormalParts(stack, rooted);
      if rooted {
        RenderedRooted(stack);
      }
    }
  }

  lemma RenderedRoot()
    ensures Render(true, []) == "/" && TakeAll(true, Split("/", '/')) == []
  {
    RootSplits();
    TakeSkips(true, "", [""]);
    TakeSkips(true, "", []);
    assert ["", ""] == [""] + [""] && [""] == [""] + [];
  }

  lemma RenderedDot()
    ensures Render(false, []) == "." && TakeAll(false, Split(".", '/')) == []
  {
    SplitFirst(".", "", '/');
    TakeSkips(false, ".", []);
    assert ["."] == ["."] + [];
  }

  lemma RenderedRooted(stack: seq<string>)
    requires Normal(true, stack) && stack != []
    ensures TakeAll(true, Split(Render(true, stack), '/')) == stack
  {
    var p, q := Render(true, stack), Join(stack, '/');
    assert Split(p, '/') == [""] + stack by {
      NormalParts(stack, true);
      assert p == "" + ['/'] + q;
      SplitFirst("", q, '/');
    }
    assert TakeAll(true, [""] + stack) == stack by {
      NormalTaken(true, stack);
      TakeSkips(true, "", stack);
    }
  }

  lemma RootSplits()
    ensures Split("/", '/') == ["", ""]
  {
    assert "/"[1..] == "";
    assert Split("", '/') == [""];
  }

  /** Elements joined on behind a rendered path are taken behind its stack. */
  lemma RenderedThen(rooted: bool, stack: seq<string>, more: string)
    requires Normal(rooted, stack)
    ensures var p := Render(rooted, stack) + "/" + more;
            Rooted(p) == rooted && Split(p, '/') == Split(Render(rooted, stack), '/') + Split(more, '/')
  {
    Rendered(rooted, stack);
    SplitAppend(Render(rooted, stack), more, '/');
  }

  lemma TakePlain(rooted: bool, elements: seq<string>, m: string)
    requires Plain(m)
    ensures TakeAll(rooted, elements + [m]) == TakeAll(rooted, elements) + [m]
  {
    TakeLast(rooted, elements, m);
  }

  /** The directory of a rendered path with a plain last element is the path without it. */
  lemma DirOfRendered(rooted: bool, stack: seq<string>, e: string)
    requires Normal(rooted, stack) && Plain(e)
    ensures Dir(Render(rooted, stack + [e])) == Render(rooted, stack)
  {
    assert stack == [] ==> stack + [e] == [e];
    if stack != [] {
      DirUnder(rooted, stack, e);
    } else if rooted {
      DirUnderRoot(e);
    } else {
      DirAlone(e);
    }
  }

  lemma DirUnder(rooted: bool, stack: seq<string>, e: string)
    requires Normal(rooted, stack) && Plain(e) && stack != []
    ensures Dir(Render(rooted, stack + [e])) == Render(rooted, stack)
  {
    var p, front := Render(rooted, stack + [e]), Render(rooted, stack);
    assert p == front + "/" + e by {
      JoinLast(stack, e);
      if rooted {
        assert "/" + (Join(stack, '/') + "/" + e) == ("/" + Join(stack, '/')) + "/" + e;
      }
    }
    FileStartOf(front, e);
    assert p[..|front| + 1] == front + "/" + "";
    CleanWithSlash(rooted, stack);
  }

  lemma CleanWithSlash(rooted: bool, stack: seq<string>)
    requires Normal(rooted, stack)
    ensures Clean(Render(rooted, stack) + "/" + "") == Render(rooted, stack)
  {
    var front := Render(rooted, stack);
    RenderedThen(rooted, stack, "");
    Rendered(rooted, stack);
    assert Split("", '/') == [""];
    TakeLast(rooted, Split(front, '/'), "");
  }

  lemma DirUnderRoot(e: string)
    requires Plain(e)
    ensures Dir(Render(true, [e])) == Render(true, [])
  {
    var p := Render(true, [e]);
    assert Join([e], '/') == e && p == "" + "/" + e;
    FileStartOf("", e);
    assert p[..1] == "/";
    RenderedRoot();
  }

  lemma DirAlone(e: string)
    requires Plain(e)
    ensures Dir(Render(false, [e])) == Render(false, [])
  {
    FileStartOf("", e);
    assert Render(false, [e]) == e && e[..0] == "" && Split("", '/') == [""];
    TakeSkips(false, "", []);
    assert [""] == [""] + [];
  }

  /** The path a client is given lies in its own directory right under that of the configured path. */
  lemma ClientPathLiesUnder(path: string, mac: seq<byte>)
    requires Plain(Base(path)) && mac != []
    ensures Dir(Dir(Injected(path, mac))) == Dir(path)
    ensures Base(Dir(Injected(path, mac))) == MacText(mac, ':') && Base(Injected(path, mac)) == Base(path)
  {
    var d := path[..FileStart(path)];
    var rooted := Rooted(d);
    var stack := TakeAll(rooted, Split(d, '/'));
    SplitIsFree(d, '/');
    TakenNormal(rooted, Split(d, '/'));
    assert Dir(path) == Render(rooted, stack);
    DirIsNotEmpty(path);
    MacTextPlain(mac);
    InjectedEnds(Dir(path), MacText(mac, ':'), Base(path));
    TwoUnder(rooted, stack, MacText(mac, ':'), Base(path));
  }

  lemma TwoUnder(rooted: bool, stack: seq<string>, m: string, e: string)
    requires Normal(rooted, stack) && Plain(m) && Plain(e)
    ensures Render(rooted, stack) != "" && Dir(Dir(JoinPath(Render(rooted, stack), m, e))) == Render(rooted, stack)
  {
    var base := Render(rooted, stack);
    Rendered(rooted, stack);
    var more := m + "/" + e;
    assert base + "/" + m + "/" + e == base + "/" + more;
    RenderedThen(rooted, stack, more);
    SplitFirst(m, e, '/');
    SplitFirst(e, "", '/');
    var parts := Split(base, '/');
    assert Split(base + "/" + more, '/') == parts + [m] + [e];
    TakePlain(rooted, parts, m);
    TakePlain(rooted, parts + [m], e);
    assert JoinPath(base, m, e) == Render(rooted, stack + [m] + [e]);
    assert Normal(rooted, stack + [m]);
    DirOfRendered(rooted, stack + [m], e);
    DirOfRendered(rooted, stack, m);
  }

  /** A configured path that ends in anything but auto.ipxe is never looked up at all. */
  lemma OtherNamesUnsupported(path: string, mac: seq<byte>)
    requires Plain(Base(path)) && mac != []
    ensures RouteOf(Injected(path, mac)) == Unsupported <==> Base(path) != AUTO
  {
    ClientPathLiesUnder(path, mac);
  }
}
