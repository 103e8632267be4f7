/** Paths in the VFS tree: the tokenizer and walker of vfs_open against the parent-chain printer vfs_get_fullpath. */
module VfsPath {
  const NUL: char := '\0'

  // ---------- tokens ----------

  /** Length of the leading stretch without a slash. */
  function Span(p: string): (k: nat)
    ensures k <= |p| && (forall i | 0 <= i < k :: p[i] != '/') && (k < |p| ==> p[k] == '/')
  {
    if p == [] || p[0] == '/' then 0 else 1 + Span(p[1..])
  }

  /** The components of a path: maximal stretches between slashes. */
  function Tokens(p: string): seq<string>
    decreases |p|
  {
    if p == [] then []
    else if p[0] == '/' then Tokens(p[1..])
    else
      var k := Span(p);
      [p[..k]] + (if k < |p| then Tokens(p[k + 1..]) else [])
  }

  /** Splitting is settled by two laws: a string without a slash is one component, unless it is empty; */
  lemma TokensWhole(p: string)
    requires '/' !in p
    ensures Tokens(p) == if p == [] then [] else [p]
  {
    SpanAll(p);
    if p != [] { assert p[..|p|] == p; }
  }

  lemma {:induction false} SpanAll(p: string)
    requires '/' !in p
    ensures Span(p) == |p|
  {
    if p != [] {
      assert p[0] in p && forall c | c in p[1..] :: c in p;
      SpanAll(p[1..]);
    }
  }

  /** and a slash anywhere separates what stands before it from what stands behind. */
  lemma {:induction false} TokensSplit(a: string, b: string)
    ensures Tokens(a + "/" + b) == Tokens(a) + Tokens(b)
    decreases |a|
  {
    hide Tokens, Span;
    NoTokens();
    if a == [] {
      assert a + "/" + b == "/" + b;
      SlashHead(b);
    } else if a[0] == '/' {
      assert a == "/" + a[1..];
      assert a + "/" + b == "/" + (a[1..] + "/" + b);
      SlashHead(a[1..]);
      SlashHead(a[1..] + "/" + b);
      TokensSplit(a[1..], b);
    } else {
      HeadSame(a, b);
      if Span(a) < |a| { TokensSplit(a[Span(a) + 1..], b); }
    }
  }

  lemma SlashHead(p: string)
    ensures Tokens("/" + p) == Tokens(p)
  {
    assert ("/" + p)[0] == '/' && ("/" + p)[1..] == p;
  }

  /** A slash behind it does not change the first component. */
  lemma HeadSame(a: string, b: string)
    requires a != [] && a[0] != '/'
    ensures var k := Span(a);
            && Tokens(a) == [a[..k]] + (if k < |a| then Tokens(a[k + 1..]) else [])
            && Tokens(a + "/" + b) == [a[..k]] + Tokens(if k < |a| then a[k + 1..] + "/" + b else b)
  {
    hide Tokens, Span;
    var p, k := a + "/" + b, Span(a);
    SpanSame(a, "/" + b);
    assert p == a + ("/" + b);
    assert p[..k] == a[..k];
    TokensHead(p);
    TokensHead(a);
    assert p[k + 1..] == if k < |a| then a[k + 1..] + "/" + b else b;
  }

  lemma {:induction false} SpanSame(a: string, b: string)
    requires b != [] && b[0] == '/'
    ensures Span(a + b) == Span(a)
  {
    if a == [] {
      assert a + b == b;
    } else if a[0] != '/' {
      assert (a + b)[1..] == a[1..] + b;
      SpanSame(a[1..], b);
    }
  }

  /** `n` is where the C string from `at` ends. */
  ghost predicate EndsAt(s: seq<char>, at: nat, n: nat) {
    at <= n < |s| && s[n] == NUL && forall i | at <= i < n :: s[i] != NUL
  }

  /** Where the slashes from `at` end. */
  method SkipSlashes(s: array<char>, at: nat, ghost n: nat) returns (e: nat)
    requires EndsAt(s[..], at, n)
    ensures at <= e <= n && EndsAt(s[..], e, n) && s[e] != '/' && Tokens(s[at..n]) == Tokens(s[e..n])
  {
    e := at;
    while s[e] == '/'
      invariant at <= e <= n && Tokens(s[at..n]) == Tokens(s[e..n])
      decreases n - e
    {
      assert s[e..n][1..] == s[e + 1..n];
      e := e + 1;
    }
  }

  /** Where the token starting at `b` ends. */
  method TokenEnd(s: array<char>, b: nat, ghost n: nat) returns (e: nat)
    requires EndsAt(s[..], b, n)
    ensures b <= e <= n && e - b == Span(s[b..n]) && (s[e] == NUL <==> e == n)
  {
    e := b;
    while s[e] != NUL && s[e] != '/'
      invariant b <= e <= n && Span(s[b..n]) == e - b + Span(s[e..n])
      decreases n - e
    {
      assert s[e..n][1..] == s[e + 1..n];
      e := e + 1;
    }
  }

  /**
   * pathtok: the next token, cut out of the buffer by a terminator, and the cursor behind it; the rest of the string is
   * left alone.
   */
  method PathTok(s: array<char>, sp: nat, ghost n: nat) returns (found: bool, tok: string, sp': nat)
    requires EndsAt(s[..], sp, n)
    modifies s
    ensures sp <= sp' <= n && EndsAt(s[..], sp', n) && s[sp'..n] == old(s[sp'..n])
    ensures if found then sp < sp' && Tokens(old(s[sp..n])) == [tok] + Tokens(s[sp'..n])
            else Tokens(old(s[sp..n])) == []
  {
    hide Tokens, Span;
    var b := SkipSlashes(s, sp, n);
    found, tok, sp' := false, [], b;
    if s[b] != NUL {
      var e := TokenEnd(s, b, n);
      CutToken(s[..], b, e, n);
      sp' := if s[e] == '/' then e + 1 else e;
      found, tok := true, s[b..e];
      ghost var rest := s[sp'..n];
      if s[e] != NUL {
        s[e] := NUL;
      }
      assert s[sp'..n] == rest;
    } else {
      NoTokens();
      assert s[b..n] == [];
    }
  }

  lemma NoTokens()
    ensures Tokens([]) == []
  {
  }

  lemma CutToken(s: seq<char>, b: nat, e: nat, n: nat)
    requires b < n < |s| && s[b] != '/' && b <= e <= n && e - b == Span(s[b..n])
    ensures b < e && (e < n ==> s[e] == '/')
    ensures Tokens(s[b..n]) == [s[b..e]] + Tokens(s[if e < n then e + 1 else e..n])
  {
    var rest := s[b..n];
    TokensHead(rest);
    assert rest[..e - b] == s[b..e];
    assert e < n ==> rest[e - b + 1..] == s[e + 1..n];
  }

  /** A path that starts with a component. */
  lemma TokensHead(p: string)
    requires p != [] && p[0] != '/'
    ensures var k := Span(p); 0 < k && Tokens(p) == [p[..k]] + (if k < |p| then Tokens(p[k + 1..]) else [])
  {
  }

  // ---------- the tree ----------

  /** A node; `level` only witnesses that parent links end at a root. */
  datatype Node = Node(parent: int, name: string, children: seq<nat>, level: nat)

  /** Nodes by number, node `root` being rootdir; -1 stands for no parent. */
  datatype Tree = Tree(nodes: seq<Node>, root: nat)

  /** A component that neither the tokenizer nor the walker treats specially. */
  predicate Plain(name: string) {
    name != [] && name != "." && name != ".." && '/' !in name && NUL !in name
  }

  ghost predicate IsTree(t: Tree) {
    && t.root < |t.nodes| && t.nodes[t.root].parent == -1
    && (forall n | 0 <= n < |t.nodes| && n != t.root ::
          && 0 <= t.nodes[n].parent < |t.nodes| && Plain(t.nodes[n].name)
          && t.nodes[t.nodes[n].parent].level < t.nodes[n].level && n in t.nodes[t.nodes[n].parent].children)
    && (forall p, i | 0 <= p < |t.nodes| && 0 <= i < |t.nodes[p].children| ::
          t.nodes[p].children[i] < |t.nodes| && t.nodes[t.nodes[p].children[i]].parent == p)
    && (forall p, i, j | 0 <= p < |t.nodes| && 0 <= i < j < |t.nodes[p].children| ::
          t.nodes[t.nodes[p].children[i]].name != t.nodes[t.nodes[p].children[j]].name)
  }

  /** Component names from the root down to `n`. */
  ghost function Names(t: Tree, n: nat): seq<string>
    requires IsTree(t) && n < |t.nodes|
    decreases t.nodes[n].level
  {
    if n == t.root then [] else Names(t, t.nodes[n].parent) + [t.nodes[n].name]
  }

  function Join(names: seq<string>): string {
    if names == [] then [] else if |names| == 1 then names[0] else names[0] + "/" + Join(names[1..])
  }

  /** Splitting a join of plain names gives the names back. */
  lemma {:induction false} TokensOfJoin(names: seq<string>)
    requires forall i | 0 <= i < |names| :: Plain(names[i])
    ensures Tokens(Join(names)) == names
  {
    if names != [] {
      var p, a := Join(names), names[0];
      assert p[..|a|] == a && p[0] == a[0];
      SpanOf(p, |a|);
      TokensHead(p);
      if |names| == 1 {
        assert names == [a];
      } else {
        assert p[|a| + 1..] == Join(names[1..]);
        TokensOfJoin(names[1..]);
        assert names == [a] + names[1..];
      }
    }
  }

  lemma {:induction false} SpanOf(p: string, k: nat)
    requires k <= |p| && (forall i | 0 <= i < k :: p[i] != '/') && (k < |p| ==> p[k] == '/')
    ensures Span(p) == k
  {
    if k > 0 { SpanOf(p[1..], k - 1); }
  }

  lemma {:induction false} NamesPlain(t: Tree, n: nat, i: nat)
    requires IsTree(t) && n < |t.nodes| && i < |Names(t, n)|
    ensures Plain(Names(t, n)[i])
    decreases t.nodes[n].level
  {
    if n != t.root && i < |Names(t, n)| - 1 { NamesPlain(t, t.nodes[n].parent, i); }
  }

  // ---------- the walk ----------

  /** vfs_child_find: the first child with that name; -1 if there is none. */
  function Child(t: Tree, children: seq<nat>, name: string): (c: int)
    requires forall i | 0 <= i < |children| :: children[i] < |t.nodes|
    ensures c == -1 || (c in children && 0 <= c < |t.nodes| && t.nodes[c].name == name)
    ensures c == -1 ==> forall i | 0 <= i < |children| :: t.nodes[children[i]].name != name
  {
    if children == [] then -1
    else if t.nodes[children[0]].name == name then children[0]
    else Child(t, children[1..], name)
  }

  /** One component of the loop of vfs_open without symbolic links. */
  ghost function WalkOne(t: Tree, at: nat, tok: string): (r: int)
    requires IsTree(t) && at < |t.nodes|
    ensures -1 <= r < |t.nodes|
  {
    if tok == "." then at
    else if tok == ".." then (if t.nodes[at].parent >= 0 then t.nodes[at].parent else at)
    else Child(t, t.nodes[at].children, tok)
  }

  ghost function Walk(t: Tree, at: nat, toks: seq<string>): (r: int)
    requires IsTree(t) && at < |t.nodes|
    ensures -1 <= r < |t.nodes|
    decreases |toks|
  {
    if toks == [] then at
    else
      var next := WalkOne(t, at, toks[0]);
      if next == -1 then -1 else Walk(t, next, toks[1..])
  }

  lemma {:induction false} WalkMore(t: Tree, at: nat, toks: seq<string>, tok: string)
    requires IsTree(t) && at < |t.nodes|
    ensures Walk(t, at, toks + [tok]) == if Walk(t, at, toks) == -1 then -1 else WalkOne(t, Walk(t, at, toks), tok)
    decreases |toks|
  {
    hide IsTree, Child;
    if toks == [] {
      assert ([] + [tok])[1..] == [];
    } else {
      var next := WalkOne(t, at, toks[0]);
      assert (toks + [tok])[0] == toks[0] && (toks + [tok])[1..] == toks[1..] + [tok];
      if next != -1 { WalkMore(t, next, toks[1..], tok); }
    }
  }

  lemma {:induction false} WalkJoin(t: Tree, at: nat, a: seq<string>, b: seq<string>)
    requires IsTree(t) && at < |t.nodes|
    ensures Walk(t, at, a + b) == if Walk(t, at, a) == -1 then -1 else Walk(t, Walk(t, at, a), b)
    decreases |a|
  {
    hide IsTree, Child;
    if a == [] {
      assert a + b == b;
    } else {
      assert (a + b)[0] == a[0] && (a + b)[1..] == a[1..] + b;
      var next := WalkOne(t, at, a[0]);
      if next != -1 { WalkJoin(t, next, a[1..], b); }
    }
  }

  lemma WalkSingle(t: Tree, at: nat, tok: string)
    requires IsTree(t) && at < |t.nodes|
    ensures Walk(t, at, [tok]) == WalkOne(t, at, tok)
  {
    assert [tok][1..] == [];
  }

  /** "." anywhere in a path changes nothing. */
  lemma DotStays(t: Tree, p: string, q: string)
    requires IsTree(t)
    ensures Opened(t, "/" + (p + "/" + ("." + "/" + q))) == Opened(t, "/" + (p + "/" + q))
  {
    hide IsTree, Walk, Tokens, Child;
    RootInTree(t);
    TokensSplit(p, "." + "/" + q);
    TokensSplit(".", q);
    TokensSplit(p, q);
    TokensWhole(".");
    Behind(p + "/" + ("." + "/" + q));
    Behind(p + "/" + q);
    WalkJoin(t, t.root, Tokens(p), ["."] + Tokens(q));
    WalkJoin(t, t.root, Tokens(p), Tokens(q));
    if Walk(t, t.root, Tokens(p)) != -1 {
      var at: nat := Walk(t, t.root, Tokens(p));
      WalkJoin(t, at, ["."], Tokens(q));
      WalkSingle(t, at, ".");
    }
  }

  lemma Behind(p: string)
    ensures ("/" + p)[0] == '/' && ("/" + p)[1..] == p
  {
  }

  /** ".." behind a component that can be opened takes that component back. */
  lemma DotDotUndoes(t: Tree, p: string, name: string, q: string)
    requires IsTree(t) && Plain(name) && Opened(t, "/" + (p + "/" + name)) != -1
    ensures Opened(t, "/" + (p + "/" + (name + "/" + (".." + "/" + q)))) == Opened(t, "/" + (p + "/" + q))
  {
    hide IsTree, Walk, WalkOne, Tokens, Child;
    RootInTree(t);
    TokensSplit(p, name + "/" + (".." + "/" + q));
    TokensSplit(name, ".." + "/" + q);
    TokensSplit("..", q);
    TokensSplit(p, q);
    TokensSplit(p, name);
    TokensWhole("..");
    TokensWhole(name);
    Behind(p + "/" + (name + "/" + (".." + "/" + q)));
    Behind(p + "/" + q);
    Behind(p + "/" + name);
    WalkJoin(t, t.root, Tokens(p), [name] + ([".."] + Tokens(q)));
    WalkJoin(t, t.root, Tokens(p), Tokens(q));
    WalkJoin(t, t.root, Tokens(p), [name]);
    var at: nat := Walk(t, t.root, Tokens(p));
    WalkSingle(t, at, name);
    var child: nat := WalkOne(t, at, name);
    WalkJoin(t, at, [name], [".."] + Tokens(q));
    WalkJoin(t, child, [".."], Tokens(q));
    WalkSingle(t, child, "..");
    ChildParent(t, at, name);
  }

  lemma ChildParent(t: Tree, at: nat, name: string)
    requires IsTree(t) && at < |t.nodes| && Plain(name) && WalkOne(t, at, name) != -1
    ensures WalkOne(t, WalkOne(t, at, name), "..") == at
  {
    var c := Child(t, t.nodes[at].children, name);
    var i :| 0 <= i < |t.nodes[at].children| && t.nodes[at].children[i] == c;
  }

  /** ".." at the root stays there. */
  lemma DotDotAtRoot(t: Tree, q: string)
    requires IsTree(t)
    ensures Opened(t, "/" + (".." + "/" + q)) == Opened(t, "/" + q)
  {
    RootInTree(t);
    TokensSplit("..", q);
    TokensWhole("..");
    Behind(".." + "/" + q);
    Behind(q);
    WalkJoin(t, t.root, [".."], Tokens(q));
    WalkSingle(t, t.root, "..");
  }

  /** Sibling names are unique, so looking up a node's name among its siblings finds the node. */
  lemma ChildFound(t: Tree, n: nat)
    requires IsTree(t) && n < |t.nodes| && n != t.root
    ensures Child(t, t.nodes[t.nodes[n].parent].children, t.nodes[n].name) == n
  {
    var p := t.nodes[n].parent;
    var cs := t.nodes[p].children;
    var c := Child(t, cs, t.nodes[n].name);
    var i :| 0 <= i < |cs| && cs[i] == n;
    assert c != -1;
    var j :| 0 <= j < |cs| && cs[j] == c;
    assert i == j;
  }

  /** Walking a node's component names from the root reaches the node. */
  lemma {:induction false} WalkNames(t: Tree, n: nat)
    requires IsTree(t) && n < |t.nodes|
    ensures Walk(t, t.root, Names(t, n)) == n
    decreases t.nodes[n].level
  {
    if n != t.root {
      var p := t.nodes[n].parent;
      WalkNames(t, p);
      WalkMore(t, t.root, Names(t, p), t.nodes[n].name);
      ChildFound(t, n);
    }
  }

  /** What vfs_open finds for a path; -1 is NULL. */
  ghost function Opened(t: Tree, str: string): int
    requires IsTree(t)
  {
    if str == [] || str[0] != '/' then -1 else Walk(t, t.root, Tokens(str[1..]))
  }

  /** Opening the printed path of a node gives the node. */
  lemma OpenFullPath(t: Tree, n: nat)
    requires IsTree(t) && n < |t.nodes|
    ensures Opened(t, "/" + Join(Names(t, n))) == n
  {
    forall i | 0 <= i < |Names(t, n)|
      ensures Plain(Names(t, n)[i])
    {
      NamesPlain(t, n, i);
    }
    TokensOfJoin(Names(t, n));
    WalkNames(t, n);
    assert ("/" + Join(Names(t, n)))[1..] == Join(Names(t, n));
  }

  // ---------- the two operations ----------

  lemma {:induction false} JoinMore(names: seq<string>, name: string)
    ensures Join(names + [name]) == if names == [] then name else Join(names) + "/" + name
  {
    if names == [] {
      assert [] + [name] == [name];
    } else {
      assert (names + [name])[0] == names[0] && (names + [name])[1..] == names[1..] + [name];
      if |names| == 1 {
        assert names[1..] == [];
      }
      JoinMore(names[1..], name);
    }
  }

  /** The chain of ancestors of `n`, nearest first. */
  ghost predicate Ancestors(t: Tree, n: nat, chain: seq<nat>)
    requires IsTree(t)
  {
    && chain != [] && chain[0] == n && (forall k | 0 <= k < |chain| :: chain[k] < |t.nodes|)
    && (forall k | 0 <= k < |chain| - 1 :: chain[k] != t.root && t.nodes[chain[k]].parent == chain[k + 1])
  }

  lemma Above(t: Tree, n: nat)
    requires IsTree(t) && n < |t.nodes| && n != t.root
    ensures 0 <= t.nodes[n].parent < |t.nodes| && t.nodes[t.nodes[n].parent].level < t.nodes[n].level
    ensures Names(t, n) == Names(t, t.nodes[n].parent) + [t.nodes[n].name]
  {
  }

  method Climb(t: Tree, n: nat) returns (chain: seq<nat>)
    requires IsTree(t) && n < |t.nodes|
    ensures Ancestors(t, n, chain) && chain[|chain| - 1] == t.root
  {
    hide IsTree;
    chain := [n];
    var cur := n;
    while cur != t.root
      invariant cur < |t.nodes| && Ancestors(t, n, chain) && chain[|chain| - 1] == cur
      decreases t.nodes[cur].level
    {
      Above(t, cur);
      cur := t.nodes[cur].parent;
      chain := chain + [cur];
    }
  }

  /** What has been printed before the node at position `j` of the chain. */
  ghost function Printed(names: seq<string>, more: bool): string {
    if names == [] then "/" else "/" + Join(names) + (if more then "/" else "")
  }

  /** vfs_get_fullpath. */
  method FullPath(t: Tree, n: nat) returns (path: string)
    requires IsTree(t) && n < |t.nodes|
    ensures path == "/" + Join(Names(t, n))
  {
    hide IsTree;
    var chain := Climb(t, n);
    path := "/";
    RootNames(t);
    var j := |chain| - 1;
    while j >= 0
      invariant -1 <= j < |chain|
      invariant path == if j == |chain| - 1 then "/" else Printed(Names(t, chain[j + 1]), j >= 0)
    {
      if j < |chain| - 1 { PrintStep(t, n, chain, j); }
      if chain[j] != t.root {
        path := path + t.nodes[chain[j]].name;
        if j != 0 { path := path + "/"; }
      }
      j := j - 1;
    }
  }

  lemma RootNames(t: Tree)
    requires IsTree(t)
    ensures Names(t, t.root) == []
  {
  }

  lemma PrintStep(t: Tree, n: nat, chain: seq<nat>, j: nat)
    requires IsTree(t) && Ancestors(t, n, chain) && j < |chain| - 1
    ensures chain[j] < |t.nodes| && chain[j + 1] < |t.nodes|
    ensures var before, name := Names(t, chain[j + 1]), t.nodes[chain[j]].name;
            && Names(t, chain[j]) == before + [name]
            && Printed(before, true) + name == Printed(before + [name], false)
            && Printed(before, true) + name + "/" == Printed(before + [name], true)
  {
    hide IsTree, Names;
    Above(t, chain[j]);
    JoinMore(Names(t, chain[j + 1]), t.nodes[chain[j]].name);
  }

  /** vfs_open on a tree without symbolic links. */
  method Open(t: Tree, str: string) returns (r: int)
    requires IsTree(t) && NUL !in str
    ensures r == Opened(t, str)
  {
    hide IsTree, Tokens;
    if str == [] || str[0] != '/' { return -1; }
    var n := |str| - 1;
    var path := new char[n + 1](i requires 0 <= i < n + 1 => if i < n then str[i + 1] else NUL);
    assert path[0..n] == str[1..];
    ghost var toks := Tokens(str[1..]);
    r := t.root;
    RootInTree(t);
    var sp := 0;
    var found, tok;
    found, tok, sp := PathTok(path, sp, n);
    ghost var left := Tokens(path[sp..n]);
    while found && r != -1
      invariant sp <= n && EndsAt(path[..], sp, n) && -1 <= r < |t.nodes|
      invariant left == Tokens(path[sp..n])
      invariant r != -1 ==> Walk(t, t.root, toks) == if found then Walk(t, r, [tok] + left) else r
      invariant r == -1 ==> Walk(t, t.root, toks) == -1
      decreases n - sp, r != -1, found
    {
      WalkHead(t, r, tok, left);
      r := Step(t, r, tok);
      if r != -1 {
        found, tok, sp := PathTok(path, sp, n);
        left := Tokens(path[sp..n]);
        NothingLeft(t, r);
      }
    }
  }

  lemma RootInTree(t: Tree)
    requires IsTree(t)
    ensures t.root < |t.nodes|
  {
  }

  lemma WalkHead(t: Tree, at: nat, tok: string, left: seq<string>)
    requires IsTree(t) && at < |t.nodes|
    ensures Walk(t, at, [tok] + left) == if WalkOne(t, at, tok) == -1 then -1 else Walk(t, WalkOne(t, at, tok), left)
  {
    assert ([tok] + left)[1..] == left;
  }

  lemma NothingLeft(t: Tree, at: nat)
    requires IsTree(t) && at < |t.nodes|
    ensures Walk(t, at, []) == at
  {
  }

  /** The body of the loop of vfs_open. */
  method Step(t: Tree, at: nat, tok: string) returns (r: int)
    requires IsTree(t) && at < |t.nodes|
    ensures r == WalkOne(t, at, tok)
  {
    r := at;
    if tok == "." {
    } else if tok == ".." {
      if t.nodes[at].parent >= 0 { r := t.nodes[at].parent; }
    } else {
      r := Child(t, t.nodes[at].children, tok);
    }
  }
}
