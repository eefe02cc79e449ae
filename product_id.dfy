/** `extract_product_id` (pyscripts/main.py, lines 78-80): the name of a
    SNAP product from the path of its `.dim` file, found by
    `re.search(r"/([^/]+?)_[^/_]+\.dim$", path)` and taken from group 1. */
module ProductId {
  import opened Wrappers

  /** The last position of `c` in `s`. */
  function LastIndex(s: string, c: char): (r: Option<nat>)
    ensures r.Some? ==> r.value < |s| && s[r.value] == c && forall k :: r.value < k < |s| ==> s[k] != c
    ensures r.None? ==> forall k :: 0 <= k < |s| ==> s[k] != c
    decreases |s|
  {
    if |s| == 0 then None
    else if s[|s| - 1] == c then Some(|s| - 1)
    else LastIndex(s[..|s| - 1], c)
  }

  /** `\.dim` ends at position `e` of `s`. */
  predicate DimAt(s: string, e: int) {
    4 <= e <= |s| && s[e - 4] == '.' && s[e - 3] == 'd' && s[e - 2] == 'i' && s[e - 1] == 'm'
  }

  /** Where `.dim` has to end for `$` to match: at the end of the path, or
      just before a single newline that ends it. */
  function DimEnd(s: string): (r: Option<nat>)
    ensures r.Some? ==> DimAt(s, r.value) && (r.value == |s| || (r.value + 1 == |s| && s[r.value] == '\n'))
    ensures r.None? ==> !DimAt(s, |s|) && !(|s| >= 1 && s[|s| - 1] == '\n' && DimAt(s, |s| - 1))
  {
    if DimAt(s, |s|) then Some(|s|)
    else if |s| >= 1 && s[|s| - 1] == '\n' && DimAt(s, |s| - 1) then Some(|s| - 1)
    else None
  }

  /** Group 1 of the match, or `None` when there is no match: `.dim` must
      end the path (up to one newline), and the text between the last `/`
      before it and `.dim` must split at its last `_` into a non-empty
      head, the result, and a non-empty tail. */
  function ExtractProductId(path: string): (r: Option<string>)
    ensures r.Some? ==> DimEnd(path).Some? && |r.value| >= 1 && '/' !in r.value
  {
    match DimEnd(path)
    case None => None
    case Some(e) => IdOfHead(path[..e - 4])
  }

  /** The path up to `.dim`: only what follows its last `/` can match. */
  function IdOfHead(head: string): (r: Option<string>)
    ensures r.Some? ==> |r.value| >= 1 && '/' !in r.value
  {
    match LastIndex(head, '/')
    case None => None
    case Some(p) =>
      var name := head[p + 1..];
      assert '/' !in name by {
        assert forall k :: 0 <= k < |name| ==> name[k] == head[p + 1 + k];
      }
      IdOfName(name)
  }

  /** The last path component without `.dim`: `[^/_]+` takes what follows
      its last `_`, and the lazy group everything before. */
  function IdOfName(name: string): (r: Option<string>)
    ensures r.Some? ==> 1 <= |r.value| <= |name| && r.value == name[..|r.value|]
  {
    match LastIndex(name, '_')
    case None => None
    case Some(j) => if 1 <= j < |name| - 1 then Some(name[..j]) else None
  }

  // ----- the regular expression, read directly -----

  /** The pattern matches at `p`, with `g` for `([^/]+?)` and `t` for `[^/_]+`. */
  predicate MatchAt(s: string, p: int, g: string, t: string) {
    var e := p + |g| + |t| + 6;
    0 <= p &&
    (e == |s| || (e + 1 == |s| && s[e] == '\n')) &&
    s[p..e] == "/" + g + "_" + t + ".dim" &&
    |g| >= 1 && '/' !in g &&
    |t| >= 1 && '/' !in t && '_' !in t
  }

  // ----- each step on its own -----

  /** The last `c` of `pre + [c] + rest` is the one after `pre` when `rest` has none. */
  lemma {:induction false} LastOf(pre: string, c: char, rest: string)
    requires c !in rest
    ensures LastIndex(pre + [c] + rest, c) == Some(|pre|)
    decreases |rest|
  {
    var s := pre + [c] + rest;
    if |rest| == 0 {
      assert s[|s| - 1] == c;
    } else {
      assert rest[|rest| - 1] in rest;
      assert s[|s| - 1] != c;
      assert s[..|s| - 1] == pre + [c] + rest[..|rest| - 1];
      LastOf(pre, c, rest[..|rest| - 1]);
    }
  }

  lemma NameOf(g: string, t: string)
    requires |g| >= 1 && |t| >= 1 && '_' !in t
    ensures IdOfName(g + "_" + t) == Some(g)
  {
    var name := g + "_" + t;
    LastOf(g, '_', t);
    assert name[..|g|] == g;
  }

  lemma HeadOf(pre: string, name: string)
    requires '/' !in name
    ensures IdOfHead(pre + "/" + name) == IdOfName(name)
  {
    var head := pre + "/" + name;
    LastOf(pre, '/', name);
    assert head[|pre| + 1..] == name;
  }

  lemma PathOf(body: string, nl: string)
    requires DimAt(body, |body|) && (nl == "" || nl == "\n")
    ensures ExtractProductId(body + nl) == IdOfHead(body[..|body| - 4])
  {
    var s := body + nl;
    if nl == "\n" {
      assert s[|s| - 1] == '\n';
      assert !DimAt(s, |s|);
      assert forall k :: 0 <= k < |body| ==> s[k] == body[k];
      assert DimEnd(s) == Some(|body|);
    } else {
      assert s == body;
    }
    assert s[..|body| - 4] == body[..|body| - 4];
  }

  /** No `/` in `g + "_" + t` when there is none in `g` or `t`. */
  lemma NoSlash(g: string, t: string)
    requires '/' !in g && '/' !in t
    ensures '/' !in g + "_" + t
  {
    var name := g + "_" + t;
    assert forall k :: 0 <= k < |g| ==> name[k] == g[k];
    assert forall k :: |g| < k < |name| ==> name[k] == t[k - |g| - 1];
  }

  /** The path of a match, piece by piece: the function returns its group. */
  lemma Frame(pre: string, g: string, t: string, nl: string)
    requires nl == "" || nl == "\n"
    requires |g| >= 1 && '/' !in g && |t| >= 1 && '/' !in t && '_' !in t
    ensures ExtractProductId(pre + "/" + g + "_" + t + ".dim" + nl) == Some(g)
  {
    var name := g + "_" + t;
    var head := pre + "/" + name;
    var body := head + ".dim";
    assert pre + "/" + g + "_" + t + ".dim" + nl == body + nl;
    assert DimAt(body, |body|);
    PathOf(body, nl);
    assert body[..|body| - 4] == head;
    NoSlash(g, t);
    HeadOf(pre, name);
    NameOf(g, t);
  }

  /** Any match of the pattern, wherever it starts, carries the result as
      its group: the match is unique and `re.search` finds it. */
  lemma MatchGivesId(s: string, p: int, g: string, t: string)
    requires MatchAt(s, p, g, t)
    ensures ExtractProductId(s) == Some(g)
  {
    var e := p + |g| + |t| + 6;
    var nl := s[e..];
    if e + 1 == |s| {
      assert nl == [s[e]];
    } else {
      assert nl == [];
    }
    var pre := s[..p];
    assert s[p..e] == "/" + g + "_" + t + ".dim";
    assert s == pre + s[p..e] + nl;
    assert s == pre + "/" + g + "_" + t + ".dim" + nl;
    Frame(pre, g, t, nl);
  }

  // ----- and back -----

  lemma NamePieces(name: string) returns (t: string)
    requires IdOfName(name).Some?
    ensures var g := IdOfName(name).value;
      name == g + "_" + t && |g| >= 1 && |t| >= 1 && '_' !in t
  {
    var j := LastIndex(name, '_').value;
    var g := name[..j];
    t := name[j + 1..];
    assert forall k :: 0 <= k < |t| ==> t[k] == name[j + 1 + k];
    assert name == g + "_" + t;
  }

  lemma HeadPieces(head: string) returns (pre: string, name: string)
    requires IdOfHead(head).Some?
    ensures head == pre + "/" + name && '/' !in name && IdOfName(name) == IdOfHead(head)
  {
    var p := LastIndex(head, '/').value;
    pre, name := head[..p], head[p + 1..];
    assert forall k :: 0 <= k < |name| ==> name[k] == head[p + 1 + k];
    assert head == pre + "/" + name;
  }

  lemma PathPieces(s: string) returns (body: string, nl: string)
    requires ExtractProductId(s).Some?
    ensures s == body + nl && (nl == "" || nl == "\n") && DimAt(body, |body|)
    ensures IdOfHead(body[..|body| - 4]) == ExtractProductId(s)
  {
    var e := DimEnd(s).value;
    body, nl := s[..e], s[e..];
    if e == |s| {
      assert nl == "";
    } else {
      assert nl == [s[e]];
    }
    assert body[..|body| - 4] == s[..e - 4];
  }

  /** The pieces of a successful path, with the group and the tail. */
  lemma Pieces(s: string) returns (pre: string, t: string, nl: string)
    requires ExtractProductId(s).Some?
    ensures var g := ExtractProductId(s).value;
      s == pre + "/" + g + "_" + t + ".dim" + nl &&
      (nl == "" || nl == "\n") && |g| >= 1 && '/' !in g + "_" + t && |t| >= 1 && '_' !in t
  {
    var g := ExtractProductId(s).value;
    var body;
    body, nl := PathPieces(s);
    var head := body[..|body| - 4];
    var name;
    pre, name := HeadPieces(head);
    t := NamePieces(name);
    assert body == head + ".dim";
    assert s == pre + "/" + g + "_" + t + ".dim" + nl;
  }

  lemma SlashFree(g: string, t: string)
    requires '/' !in g + "_" + t
    ensures '/' !in g && '/' !in t
  {
    var name := g + "_" + t;
    assert forall k :: 0 <= k < |g| ==> g[k] == name[k];
    assert forall k :: 0 <= k < |t| ==> t[k] == name[|g| + 1 + k];
  }

  /** A result always comes from a match. */
  lemma IdGivesMatch(s: string)
    requires ExtractProductId(s).Some?
    ensures exists p, t :: MatchAt(s, p, ExtractProductId(s).value, t)
  {
    var g := ExtractProductId(s).value;
    var pre, t, nl := Pieces(s);
    SlashFree(g, t);
    var p := |pre|;
    var e := p + |g| + |t| + 6;
    var m := "/" + g + "_" + t + ".dim";
    assert s == pre + m + nl;
    assert s[p..e] == m;
    assert s[e..] == nl;
    assert e == |s| || (e + 1 == |s| && s[e] == '\n');
    assert MatchAt(s, p, g, t);
  }

  /** The function returns `None` exactly when the pattern matches nowhere. */
  lemma NoneIffNoMatch(s: string)
    ensures ExtractProductId(s).None? <==> forall p, g, t :: !MatchAt(s, p, g, t)
  {
    if ExtractProductId(s).Some? {
      IdGivesMatch(s);
    } else {
      forall p, g, t
        ensures !MatchAt(s, p, g, t)
      {
        if MatchAt(s, p, g, t) {
          MatchGivesId(s, p, g, t);
        }
      }
    }
  }

  /** A result is a non-empty name with no `/`, and `/` + name + `_` is
      followed in the path by a non-empty tail free of `_` and `/`, then
      `.dim` and at most one newline. */
  lemma IdShape(s: string)
    requires ExtractProductId(s).Some?
    ensures var g := ExtractProductId(s).value;
      |g| >= 1 && '/' !in g &&
      exists p, t :: MatchAt(s, p, g, t)
  {
    IdGivesMatch(s);
  }

  /** Without `.dim` at the end, or without any `/`, there is no result. */
  lemma NoneWithoutDimOrSlash(s: string)
    requires DimEnd(s).None? || '/' !in s
    ensures ExtractProductId(s).None?
  {
    if DimEnd(s).Some? {
      var e := DimEnd(s).value;
      var head := s[..e - 4];
      assert forall k :: 0 <= k < |head| ==> head[k] == s[k];
    }
  }

  /** The three ways a path that ends in `.dim` after a `/` still gives
      `None`: no `_` in the last component, `_` right before `.dim`, or the
      last `_` right after the `/`. */
  lemma NoneCases(dir: string, name: string, nl: string)
    requires nl == "" || nl == "\n"
    requires '/' !in name
    requires '_' !in name || name[|name| - 1] == '_' || LastIndex(name, '_') == Some(0)
    ensures ExtractProductId(dir + "/" + name + ".dim" + nl).None?
  {
    var head := dir + "/" + name;
    var body := head + ".dim";
    assert dir + "/" + name + ".dim" + nl == body + nl;
    assert DimAt(body, |body|);
    PathOf(body, nl);
    assert body[..|body| - 4] == head;
    HeadOf(dir, name);
    if '_' in name && name[|name| - 1] == '_' {
      assert LastIndex(name, '_') == Some(|name| - 1);
    }
  }

  /** `$` also matches before one final newline, so it changes nothing... */
  lemma NewlineIgnored(body: string)
    requires DimAt(body, |body|)
    ensures ExtractProductId(body + "\n") == ExtractProductId(body)
  {
    PathOf(body, "\n");
    PathOf(body, "");
    assert body + "" == body;
  }

  /** ...but not before two: then there is no match. */
  lemma TwoNewlines(body: string)
    ensures ExtractProductId(body + "\n\n").None?
  {
    var s := body + "\n\n";
    assert s[|s| - 1] == '\n' && s[|s| - 2] == '\n';
    assert !DimAt(s, |s|) && !DimAt(s, |s| - 1);
  }

  lemma NoSlashCat(a: string, b: string)
    requires '/' !in a && '/' !in b
    ensures '/' !in a + b
  {
    assert forall k :: 0 <= k < |a + b| ==> (a + b)[k] == if k < |a| then a[k] else b[k - |a|];
  }

  /** The product path the pipeline cuts: the name is everything up to the
      last `_`, underscores inside it included. */
  lemma SentinelExample(dir: string, g: string, path: string)
    requires dir == "/Data_large/SARGFM/data/2_processed"
    requires g == "S1A_IW_SLC__1SDV" + "_20240503T031928" + "_20240503T031942" + "_053701_0685FB_670F"
    requires path == dir + "/" + g + "_TC.dim"
    ensures ExtractProductId(path) == Some(g)
  {
    var a, b, c, d := "S1A_IW_SLC__1SDV", "_20240503T031928", "_20240503T031942", "_053701_0685FB_670F";
    assert '/' !in a && '/' !in b && '/' !in c && '/' !in d;
    NoSlashCat(a, b);
    NoSlashCat(a + b, c);
    NoSlashCat(a + b + c, d);
    assert "_TC.dim" == "_" + "TC" + ".dim";
    assert path == dir + "/" + g + "_" + "TC" + ".dim" + "";
    Frame(dir, g, "TC", "");
  }
}
