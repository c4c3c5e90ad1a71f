/** Vault-relative paths: normalisation, the canonical form, ancestors and descendants. */
module Paths {
  import opened Wrappers

  datatype PathError = EmptyPath | InvalidPath

  // ---- trimming and splitting ---------------------------------------------

  /** The Unicode White_Space property. */
  predicate IsWhitespace(c: char) {
    || 0x09 <= c as int <= 0x0D
    || c as int in {0x20, 0x85, 0xA0, 0x1680, 0x2028, 0x2029, 0x202F, 0x205F, 0x3000}
    || 0x2000 <= c as int <= 0x200A
  }

  predicate IsSlash(c: char) { c == '/' }

  function StripStart(s: string, drop: char -> bool): (r: string)
    ensures |r| <= |s| && r == s[|s| - |r|..]
    ensures r != "" ==> !drop(r[0])
  {
    if s != "" && drop(s[0]) then StripStart(s[1..], drop) else s
  }

  function StripEnd(s: string, drop: char -> bool): (r: string)
    ensures |r| <= |s| && r == s[..|r|]
    ensures r != "" ==> !drop(r[|r| - 1])
  {
    if s != "" && drop(s[|s| - 1]) then StripEnd(s[..|s| - 1], drop) else s
  }

  function Strip(s: string, drop: char -> bool): (r: string)
    ensures r != "" ==> !drop(r[0]) && !drop(r[|r| - 1])
  {
    StripEnd(StripStart(s, drop), drop)
  }

  lemma StripFixed(s: string, drop: char -> bool)
    ensures |Strip(s, drop)| <= |s| && (|Strip(s, drop)| == |s| ==> Strip(s, drop) == s)
    ensures Strip(s, drop) == s <==> s == "" || (!drop(s[0]) && !drop(s[|s| - 1]))
  {
  }

  /** `split('/')`: the pieces between slashes, empty ones included. */
  function Split(s: string): (parts: seq<string>)
    ensures |parts| >= 1
  {
    if s == "" then [""]
    else if s[0] == '/' then [""] + Split(s[1..])
    else
      var rest := Split(s[1..]);
      [[s[0]] + rest[0]] + rest[1..]
  }

  lemma SplitCons(c: char, t: string)
    ensures Split([c] + t) == if c == '/' then [""] + Split(t) else [[c] + Split(t)[0]] + Split(t)[1..]
  {
  }

  lemma SplitJoinStep(c: char, t: string, b: string)
    requires Split(t + "/" + b) == Split(t) + Split(b)
    ensures Split([c] + (t + "/" + b)) == Split([c] + t) + Split(b)
  {
    hide Split;
    SplitCons(c, t);
    SplitCons(c, t + "/" + b);
    var rest := Split(t);
    assert (rest + Split(b))[1..] == rest[1..] + Split(b);
  }

  lemma {:induction false} SplitJoin(a: string, b: string)
    ensures Split(a + "/" + b) == Split(a) + Split(b)
  {
    if a == "" {
      assert a + "/" + b == ['/'] + b;
      SplitCons('/', b);
    } else {
      hide Split;
      SplitJoin(a[1..], b);
      SplitJoinStep(a[0], a[1..], b);
      assert a == [a[0]] + a[1..];
      assert a + "/" + b == [a[0]] + (a[1..] + "/" + b);
    }
  }

  lemma {:induction false} SplitWhole(s: string)
    requires '/' !in s
    ensures Split(s) == [s]
  {
    if s != "" {
      SplitWhole(s[1..]);
      assert s == [s[0]] + s[1..];
    }
  }

  // ---- normalisation ------------------------------------------------------

  predicate GoodPart(part: string) {
    part != "" && part != "." && part != ".."
  }

  /** A drive letter in second position, as the byte comparison of the source sees it. */
  predicate HasDrive(p: string) {
    |p| >= 2 && p[0] as int < 0x80 && p[1] == ':'
  }

  predicate ValidVaultPath(p: string) {
    && p != ""
    && p[0] != '/' && p[0] != '\\'
    && '\0' !in p && '\\' !in p
    && ".." !in Split(p)
    && !HasDrive(p)
  }

  /** An argument without the blanks around it, then without the slashes around that. */
  function Trimmed(arg: string): string { Strip(Strip(arg, IsWhitespace), IsSlash) }

  function Normalize(path: string): Result<string, PathError> {
    var trimmed := Trimmed(path);
    if trimmed == "" then Err(EmptyPath)
    else if !ValidVaultPath(trimmed) then Err(InvalidPath)
    else if exists part :: part in Split(trimmed) && (part == "" || part == ".") then Err(InvalidPath)
    else Ok(trimmed)
  }

  /** The paths a manifest may hold: the ones normalisation leaves alone. */
  predicate Canonical(p: string) { Normalize(p) == Ok(p) }

  /** Canonical, spelled out. */
  predicate CanonicalShape(p: string) {
    && p != "" && !IsWhitespace(p[0]) && !IsWhitespace(p[|p| - 1])
    && '\0' !in p && '\\' !in p && !HasDrive(p)
    && forall part :: part in Split(p) ==> GoodPart(part)
  }

  lemma SplitEnds(p: string)
    requires p != ""
    ensures p[0] == '/' ==> "" in Split(p)
    ensures p[|p| - 1] == '/' ==> "" in Split(p)
  {
    hide Split;
    if p[0] == '/' {
      assert p == ['/'] + p[1..];
      SplitCons('/', p[1..]);
      assert Split(p)[0] == "";
    }
    if p[|p| - 1] == '/' {
      assert p == p[..|p| - 1] + "/" + "";
      SplitJoin(p[..|p| - 1], "");
      SplitWhole("");
      assert Split(p)[|Split(p)| - 1] == "";
    }
  }

  lemma CanonicalIsShape(p: string)
    ensures Canonical(p) <==> CanonicalShape(p)
  {
    hide Split, Strip, IsWhitespace;
    if p != "" {
      SplitEnds(p);
    }
    var unblanked := Strip(p, IsWhitespace);
    StripFixed(p, IsWhitespace);
    StripFixed(unblanked, IsSlash);
    StripFixed(p, IsSlash);
  }

  /** Neither end is a blank. */
  predicate BareEnds(w: string) {
    w != "" && !IsWhitespace(w[0]) && !IsWhitespace(w[|w| - 1])
  }

  /** Normalisation strips blanks, then slashes, once each, so normalising again changes nothing
      exactly when that leaves no blank at either end of the argument. */
  lemma NormalizeTwice(arg: string)
    requires Normalize(arg).Ok?
    ensures Normalize(arg) == Ok(Trimmed(arg))
    ensures Normalize(Normalize(arg).value) == Normalize(arg) <==> BareEnds(Trimmed(arg))
  {
    hide Split, Strip, IsWhitespace;
    CanonicalIsShape(Trimmed(arg));
  }

  lemma NormalizeSinglePart(path: string, t: string)
    requires t == Trimmed(path)
    requires t != "" && GoodPart(t) && '/' !in t && '\\' !in t && '\0' !in t && ':' !in t
    ensures Normalize(path) == Ok(t)
  {
    hide Split, Strip;
    SplitWhole(t);
  }

  /** One part without a blank at its ends or a colon is left as it is. */
  lemma PlainNormalizes(s: string)
    requires BareEnds(s) && GoodPart(s) && '/' !in s && '\\' !in s && '\0' !in s && ':' !in s
    ensures Normalize(s) == Ok(s)
  {
    hide Split, Strip, IsWhitespace;
    StripFixed(s, IsWhitespace);
    assert s[0] in s && s[|s| - 1] in s;
    StripFixed(s, IsSlash);
    NormalizeSinglePart(s, s);
  }

  lemma StripOne(c: char, t: string, drop: char -> bool)
    requires drop(c) && t != "" && !drop(t[0]) && !drop(t[|t| - 1])
    ensures Strip([c] + t, drop) == t
  {
    assert ([c] + t)[1..] == t;
    assert StripStart([c] + t, drop) == StripStart(t, drop);
  }

  lemma NormalizeNotIdempotent()
    ensures Normalize("/ a") == Ok(" a") && Normalize(" a") == Ok("a")
  {
    hide Split, Normalize, Strip;
    StripFixed("/ a", IsWhitespace);
    assert "/ a" == ['/'] + " a" && " a" == [' '] + "a";
    StripOne('/', " a", IsSlash);
    NormalizeSinglePart("/ a", " a");
    StripOne(' ', "a", IsWhitespace);
    StripFixed("a", IsSlash);
    NormalizeSinglePart(" a", "a");
  }

  // ---- ancestors and descendants ------------------------------------------

  /** Joins of `parent` and something below it. */
  predicate IsDescendant(path: string, parent: string) {
    |path| > |parent| && path[..|parent|] == parent && path[|parent|] == '/'
  }

  predicate AtOrBelow(path: string, root: string) {
    path == root || IsDescendant(path, root)
  }

  /** `i` is where an ancestor of `path` ends. */
  predicate IsSlashAt(path: string, i: nat) {
    i < |path| && path[i] == '/'
  }

  /** The position of the last slash, as `rsplit_once('/')` finds it. */
  function LastSlash(path: string): (r: Option<nat>)
    ensures r.None? ==> forall i :: !IsSlashAt(path, i)
    ensures r.Some? ==> IsSlashAt(path, r.value) && forall i :: r.value < i ==> !IsSlashAt(path, i)
  {
    if path == "" then None
    else if path[|path| - 1] == '/' then Some(|path| - 1)
    else
      var front := path[..|path| - 1];
      assert forall i :: IsSlashAt(path, i) <==> IsSlashAt(front, i);
      LastSlash(front)
  }

  function Parent(path: string): Option<string> {
    match LastSlash(path)
    case None => None
    case Some(i) => Some(path[..i])
  }

  /** What follows `root` in a path below it. */
  function RelativeTo(path: string, root: string): (rel: string)
    requires IsDescendant(path, root)
    ensures path == root + "/" + rel
  {
    path[|root| + 1..]
  }

  /** A path inside a directory, without the blanks it starts with and then the slashes. */
  function Bared(rel: string): string { StripStart(StripStart(rel, IsWhitespace), IsSlash) }

  /** So bared it is no drive and does not start with a dot part. */
  predicate OwnPath(rel: string) {
    var core := Bared(rel);
    !HasDrive(core) && Split(core)[0] != "." && Split(core)[0] != ".."
  }

  /** The path is below `root`, and what follows `root` is acceptable as a path of its own. */
  predicate Extractable(path: string, root: string) {
    IsDescendant(path, root) && OwnPath(RelativeTo(path, root))
  }

  function Remap(path: string, from: string, to: string): string
    requires AtOrBelow(path, from)
  {
    if path == from then to else to + "/" + path[|from| + 1..]
  }

  /** A blank stands before a slash. */
  predicate BlankBeforeSlash(w: string) {
    exists i :: 0 < i < |w| && IsSlashAt(w, i) && IsWhitespace(w[i - 1])
  }

  /** Canonical, and so are all its ancestors. */
  predicate Clean(p: string) { Canonical(p) && !BlankBeforeSlash(p) }

  /** An ancestor of a canonical path is canonical exactly when it does not end in a blank. */
  lemma AncestorCanonical(p: string, i: nat)
    requires Canonical(p) && IsSlashAt(p, i)
    ensures 0 < i
    ensures Canonical(p[..i]) <==> !IsWhitespace(p[i - 1])
  {
    hide Split, Strip, IsWhitespace, Canonical;
    CanonicalIsShape(p);
    SplitEnds(p);
    var parent, name := p[..i], p[i + 1..];
    CanonicalIsShape(parent);
    assert p == parent + "/" + name;
    SplitJoin(parent, name);
    assert forall part :: part in Split(parent) ==> part in Split(p);
  }

  lemma AncestorClean(p: string, i: nat)
    requires Clean(p) && IsSlashAt(p, i)
    ensures Clean(p[..i])
  {
    hide Canonical, IsWhitespace;
    AncestorCanonical(p, i);
    assert forall j :: IsSlashAt(p[..i], j) ==> IsSlashAt(p, j);
  }

  /** `Clean` is what every ancestor being canonical means. */
  lemma CleanIffAncestorsCanonical(p: string)
    requires Canonical(p)
    ensures Clean(p) <==> forall i: nat :: IsSlashAt(p, i) ==> Canonical(p[..i])
  {
    forall i: nat | IsSlashAt(p, i)
      ensures 0 < i && (Canonical(p[..i]) <==> !IsWhitespace(p[i - 1]))
    {
      AncestorCanonical(p, i);
    }
  }

  /** A path whose directory name ends in a blank: canonical, but its parent is not. */
  lemma BlankBeforeSlashIsNotClean()
    ensures Canonical("x /y") && Parent("x /y") == Some("x ") && !Canonical("x ")
  {
    hide Split, Strip, Canonical;
    SplitWhole("y");
    SplitWhole("x ");
    assert "x /y"[..3] == "x /" && "x /y"[..2] == "x ";
    assert LastSlash("x /") == Some(2);
    assert "x /y" == "x " + "/" + "y";
    SplitJoin("x ", "y");
    CanonicalIsShape("x /y");
    CanonicalIsShape("x ");
    assert IsSlashAt("x /y", 2);
  }

  lemma NormalizeBlankEnd()
    ensures Normalize("x ") == Ok("x")
  {
    hide Split, Normalize, StripStart, StripEnd;
    StartFixed("x ", IsWhitespace);
    assert "x " == "x" + [' '];
    EndOnce("x", ' ', IsWhitespace);
    StartFixed("x", IsSlash);
    EndFixed("x", IsSlash);
    NormalizeSinglePart("x ", "x");
  }

  /** Moving a clean path under a clean destination keeps it clean. */
  lemma RemapClean(p: string, from: string, to: string)
    requires Clean(p) && Clean(to) && AtOrBelow(p, from)
    ensures Clean(Remap(p, from, to))
  {
    hide IsWhitespace, Canonical;
    RemapCanonical(p, from, to);
    if p != from {
      var q := Remap(p, from, to);
      assert p == from + "/" + p[|from| + 1..];
      forall i | 0 < i < |q| && IsSlashAt(q, i)
        ensures !IsWhitespace(q[i - 1])
      {
        assert i < |to| ==> IsSlashAt(to, i);
        assert i == |to| ==> !IsWhitespace(q[i - 1]) by { EndsBare(to); }
        assert i > |to| ==> IsSlashAt(p, i - |to| + |from|) && p[i - |to| + |from| - 1] == q[i - 1];
      }
    }
  }

  lemma EndsBare(p: string)
    requires Canonical(p)
    ensures p != "" && !IsWhitespace(p[|p| - 1])
  {
    hide Split, Strip, IsWhitespace, Canonical;
    CanonicalIsShape(p);
  }

  /** Moving a canonical path under a canonical destination keeps it canonical. */
  lemma RemapCanonical(p: string, from: string, to: string)
    requires Canonical(p) && Canonical(to) && AtOrBelow(p, from)
    ensures Canonical(Remap(p, from, to))
  {
    hide Split, Strip, IsWhitespace, Canonical;
    if p != from {
      var rest := p[|from| + 1..];
      var q := to + "/" + rest;
      assert p == from + "/" + rest;
      SplitJoin(from, rest);
      SplitJoin(to, rest);
      CanonicalIsShape(p);
      SplitEnds(p);
      CanonicalIsShape(to);
      assert rest != "" && q[|q| - 1] == p[|p| - 1] && q[0] == to[0];
      assert Split(q) == Split(to) + Split(rest) && Split(p) == Split(from) + Split(rest);
      assert forall part :: part in Split(q) ==> part in Split(to) || part in Split(p);
      CanonicalIsShape(q);
    }
  }

  /** `Remap` is one-to-one on the subtree, and its image is the subtree of the destination. */
  lemma RemapOneToOne(p: string, q: string, from: string, to: string)
    requires AtOrBelow(p, from) && AtOrBelow(q, from)
    ensures AtOrBelow(Remap(p, from, to), to)
    ensures Remap(p, from, to) == Remap(q, from, to) ==> p == q
    ensures Remap(Remap(p, from, to), to, from) == p
  {
  }

  // ---- paths inside a directory -------------------------------------------

  lemma {:induction false} StripStartDrops(s: string, drop: char -> bool)
    ensures forall i :: 0 <= i < |s| - |StripStart(s, drop)| ==> drop(s[i])
    ensures s != "" && !drop(s[|s| - 1]) ==> StripStart(s, drop) != ""
  {
    if s != "" && drop(s[0]) {
      var rest := s[1..];
      StripStartDrops(rest, drop);
      assert StripStart(s, drop) == StripStart(rest, drop);
      forall i | 0 <= i < |s| - |StripStart(s, drop)|
        ensures drop(s[i])
      {
        if i > 0 { assert s[i] == rest[i - 1]; }
      }
    }
  }

  lemma {:induction false} StripEndDrops(s: string, drop: char -> bool)
    ensures forall i :: |StripEnd(s, drop)| <= i < |s| ==> drop(s[i])
    ensures s != "" && !drop(s[0]) ==> StripEnd(s, drop) != ""
  {
    if s != "" && drop(s[|s| - 1]) {
      StripEndDrops(s[..|s| - 1], drop);
    }
  }

  lemma StartFixed(s: string, drop: char -> bool)
    requires s == "" || !drop(s[0])
    ensures StripStart(s, drop) == s
  {
  }

  lemma StartOnce(c: char, s: string, drop: char -> bool)
    requires drop(c) && s != "" && !drop(s[0])
    ensures StripStart([c] + s, drop) == s
  {
    assert ([c] + s)[1..] == s;
    StartFixed(s, drop);
  }

  lemma EndOnce(s: string, c: char, drop: char -> bool)
    requires drop(c) && s != "" && !drop(s[|s| - 1])
    ensures StripEnd(s + [c], drop) == s
  {
    assert (s + [c])[..|s|] == s;
    EndFixed(s, drop);
  }

  lemma EndFixed(s: string, drop: char -> bool)
    requires s == "" || !drop(s[|s| - 1])
    ensures StripEnd(s, drop) == s
  {
  }

  lemma {:induction false} SplitPrefix(pre: string, s: string)
    requires '/' !in pre
    ensures Split(pre + s) == [pre + Split(s)[0]] + Split(s)[1..]
  {
    if pre == "" {
      assert pre + s == s && "" + Split(s)[0] == Split(s)[0];
    } else {
      hide Split;
      SplitPrefix(pre[1..], s);
      assert pre + s == [pre[0]] + (pre[1..] + s);
      SplitCons(pre[0], pre[1..] + s);
      assert [pre[0]] + (pre[1..] + Split(s)[0]) == pre + Split(s)[0];
    }
  }

  /** The parts of a bared path: all but perhaps the first are parts of the path. */
  lemma BaredParts(rel: string)
    requires rel != "" && forall part :: part in Split(rel) ==> GoodPart(part)
    requires !IsWhitespace(rel[|rel| - 1])
    ensures var core := Bared(rel);
            && core != "" && core[0] != '/' && |core| <= |rel| && core == rel[|rel| - |core|..]
            && Split(core)[0] != ""
            && forall k :: 0 < k < |Split(core)| ==> GoodPart(Split(core)[k])
  {
    hide Split, IsWhitespace, StripStart;
    var s := StripStart(rel, IsWhitespace);
    StripStartDrops(rel, IsWhitespace);
    var pre := rel[..|rel| - |s|];
    assert rel == pre + s;
    NoBlankSlash();
    assert '/' !in pre;
    SplitPrefix(pre, s);
    SplitEnds(rel);
    if s[0] == '/' {
      BaredAfterSlash(rel, s);
    } else {
      StartFixed(s, IsSlash);
      FirstPartEmpty(s);
      assert forall k :: 0 < k < |Split(s)| ==> Split(s)[k] == Split(rel)[k];
    }
  }

  lemma BaredAfterSlash(rel: string, s: string)
    requires s != "" && s[0] == '/' && (forall k :: 0 < k < |Split(s)| ==> Split(s)[k] in Split(rel))
    requires forall part :: part in Split(rel) ==> GoodPart(part)
    ensures var core := StripStart(s, IsSlash);
            && core != "" && core[0] != '/' && core == s[1..]
            && Split(core)[0] != "" && forall k :: 0 < k < |Split(core)| ==> GoodPart(Split(core)[k])
  {
    hide Split, GoodPart;
    var rest := s[1..];
    assert s == ['/'] + rest;
    SplitCons('/', rest);
    assert forall k :: 0 <= k < |Split(rest)| ==> Split(rest)[k] == Split(s)[k + 1];
    assert GoodPart(Split(rest)[0]);
    NotEmptyPart(Split(rest)[0]);
    if rest == "" {
      SplitWhole(rest);
    } else if rest[0] == '/' {
      assert rest == ['/'] + rest[1..];
      SplitCons('/', rest[1..]);
    }
    StartFixed(rest, IsSlash);
    assert StripStart(s, IsSlash) == StripStart(rest, IsSlash);
  }

  lemma NotEmptyPart(part: string)
    requires GoodPart(part)
    ensures part != ""
  {
  }

  lemma NoBlankSlash()
    ensures !IsWhitespace('/')
  {
  }

  lemma FirstPartEmpty(s: string)
    requires s != "" && s[0] != '/'
    ensures Split(s)[0] != ""
  {
  }

  /** The path of an entry inside a directory above it is accepted exactly when, bared of leading
      blanks and slashes, it is no drive and does not start with a dot part. */
  lemma RelativeNormalizes(p: string, q: string)
    requires Canonical(p) && IsDescendant(p, q)
    ensures Normalize(RelativeTo(p, q)).Ok? <==> OwnPath(RelativeTo(p, q))
  {
    hide Split, Trimmed, Bared, IsWhitespace, Canonical, IsDescendant;
    var rel := RelativeTo(p, q);
    CanonicalIsShape(p);
    SplitJoin(q, rel);
    assert forall part :: part in Split(rel) ==> part in Split(p);
    SplitEnds(p);
    assert rel != "" && rel[|rel| - 1] == p[|p| - 1];
    BaredParts(rel);
    TrimmedIsBared(rel);
    BaredNormalizes(rel, p);
  }

  lemma BaredNormalizes(rel: string, p: string)
    requires Trimmed(rel) == Bared(rel) && (forall c :: c in rel ==> c in p) && '\0' !in p && '\\' !in p
    requires var core := Bared(rel);
             && core != "" && core[0] != '/' && |core| <= |rel| && core == rel[|rel| - |core|..]
             && Split(core)[0] != "" && forall k :: 0 < k < |Split(core)| ==> GoodPart(Split(core)[k])
    ensures Normalize(rel).Ok? <==> OwnPath(rel)
  {
    hide Split, Trimmed, Bared;
    var core := Bared(rel);
    assert forall c :: c in core ==> c in rel;
    assert Split(core)[0] in Split(core);
    assert core[0] in core;
  }

  lemma TrimmedIsBared(rel: string)
    requires rel != "" && !IsWhitespace(rel[|rel| - 1]) && rel[|rel| - 1] != '/'
    ensures Trimmed(rel) == Bared(rel)
  {
    hide IsWhitespace, StripStart, StripEnd;
    StripStartDrops(rel, IsWhitespace);
    var s := StripStart(rel, IsWhitespace);
    EndFixed(s, IsWhitespace);
    StripStartDrops(s, IsSlash);
    EndFixed(StripStart(s, IsSlash), IsSlash);
  }

  lemma TwoParts(a: string, b: string)
    requires '/' !in a && '/' !in b && GoodPart(a) && GoodPart(b) && |a| == 1
    requires !IsWhitespace(a[0]) && !IsWhitespace(b[|b| - 1])
    requires '\0' !in a && '\0' !in b && '\\' !in a && '\\' !in b
    ensures Canonical(a + "/" + b) && IsDescendant(a + "/" + b, a) && RelativeTo(a + "/" + b, a) == b
  {
    hide Split, Strip, IsWhitespace, Canonical;
    SplitWhole(a);
    SplitWhole(b);
    SplitJoin(a, b);
    CanonicalIsShape(a + "/" + b);
  }

  /** So an entry can be extracted alone but not with the directory it is in: its name looks like a
      drive, */
  lemma DriveInsideDirectory()
    ensures Canonical("a/b:c") && IsDescendant("a/b:c", "a") && Normalize(RelativeTo("a/b:c", "a")).Err?
  {
    hide Split, Canonical, Normalize, Bared, IsDescendant, RelativeTo;
    TwoParts("a", "b:c");
    assert "a" + "/" + "b:c" == "a/b:c";
    BaredDrive();
    RelativeNormalizes("a/b:c", "a");
  }

  lemma BaredDrive()
    ensures Bared("b:c") == "b:c"
  {
    hide StripStart;
    StartFixed("b:c", IsWhitespace);
    StartFixed("b:c", IsSlash);
  }

  /** or starts with a blank that hid a dot part. */
  lemma DotsInsideDirectory()
    ensures Canonical("a/ ..") && IsDescendant("a/ ..", "a") && !HasDrive(" ..") && Normalize(RelativeTo("a/ ..", "a")).Err?
  {
    hide Split, Canonical, Normalize, Bared, IsDescendant, RelativeTo;
    TwoParts("a", " ..");
    assert "a" + "/" + " .." == "a/ ..";
    BaredDots();
    SplitWhole("..");
    RelativeNormalizes("a/ ..", "a");
  }

  lemma BaredDots()
    ensures Bared(" ..") == ".."
  {
    hide StripStart;
    assert " .." == [' '] + "..";
    StartOnce(' ', "..", IsWhitespace);
    StartFixed("..", IsSlash);
  }

  // ---- what an argument does to the paths it makes -------------------------

  /** Between the slashes at `i` and `j` are blanks alone, at least one, and before them another. */
  predicate BlankPart(w: string, i: nat, j: nat) {
    && 0 < i && i + 1 < j && IsSlashAt(w, i) && IsSlashAt(w, j) && IsWhitespace(w[i - 1])
    && forall k :: i < k < j ==> IsWhitespace(w[k])
  }

  /** Some part is all blanks and the part before it ends in one. */
  predicate HasBlankPart(w: string) {
    exists i, j :: 0 < i < j < |w| && BlankPart(w, i, j)
  }

  lemma NoDoubleSlash(p: string, k: nat)
    requires Canonical(p) && IsSlashAt(p, k)
    ensures 0 < k && !IsSlashAt(p, k + 1)
  {
    hide Split, Strip, IsWhitespace, Canonical;
    CanonicalIsShape(p);
    SplitEnds(p);
    var rest := p[k + 1..];
    assert p == p[..k] + "/" + rest;
    SplitJoin(p[..k], rest);
    assert forall part :: part in Split(rest) ==> part in Split(p);
    if IsSlashAt(p, k + 1) {
      assert rest[0] == p[k + 1];
      SplitEnds(rest);
    }
  }

  /** Where normalising the parent of a path cuts it: trailing blanks go, then one slash at most. */
  lemma ParentCut(q: string, i: nat) returns (a: nat, m: nat)
    requires Canonical(q) && LastSlash(q) == Some(i) && Normalize(q[..i]).Ok?
    ensures 0 < m <= a <= i && Normalize(q[..i]) == Ok(q[..m])
    ensures !IsWhitespace(q[0]) && (forall k :: a <= k < i ==> IsWhitespace(q[k])) && !IsWhitespace(q[a - 1])
    ensures a == m || (a == m + 1 && IsSlashAt(q, m) && a < i)
    ensures !IsSlashAt(q, m - 1)
  {
    hide Split, IsWhitespace, Canonical, StripStart, StripEnd, Trimmed, GoodPart, ValidVaultPath;
    FirstChar(q);
    NoDoubleSlash(q, i);
    var p := q[..i];
    assert p[0] == q[0];
    a, m := TrimmedEnd(p);
    assert p[..m] == q[..m];
    assert forall k :: 0 <= k < i ==> q[k] == p[k];
    if m < a {
      assert IsSlashAt(q, m);
      NoDoubleSlash(q, m);
    }
  }

  /** What trimming cuts off a string that starts with neither blank nor slash. */
  lemma TrimmedEnd(p: string) returns (a: nat, m: nat)
    requires p != "" && !IsWhitespace(p[0]) && p[0] != '/'
    ensures 0 < m <= a <= |p| && Trimmed(p) == p[..m] && !IsWhitespace(p[a - 1]) && p[m - 1] != '/'
    ensures (forall k :: a <= k < |p| ==> IsWhitespace(p[k])) && forall k :: m <= k < a ==> p[k] == '/'
  {
    hide IsWhitespace, StripStart, StripEnd;
    StartFixed(p, IsWhitespace);
    var s := StripEnd(p, IsWhitespace);
    StripEndDrops(p, IsWhitespace);
    assert s[0] == p[0];
    StartFixed(s, IsSlash);
    var n := StripEnd(s, IsSlash);
    StripEndDrops(s, IsSlash);
    a, m := |s|, |n|;
  }

  lemma FirstChar(q: string)
    requires Canonical(q)
    ensures q != "" && !IsWhitespace(q[0]) && q[0] != '/'
  {
    hide Split, IsWhitespace, Canonical;
    CanonicalIsShape(q);
    SplitEnds(q);
  }

  /** The normalised parent is canonical without a blank part exactly when the path is. */
  lemma ParentStep(q: string, i: nat)
    requires Canonical(q) && LastSlash(q) == Some(i) && Normalize(q[..i]).Ok?
    ensures var n := Normalize(q[..i]).value;
            Canonical(n) && !HasBlankPart(n) <==> !HasBlankPart(q)
  {
    hide IsWhitespace, Canonical, Normalize;
    var a, m := ParentCut(q, i);
    var n := q[..m];
    NoBlankSlash();
    CutCanonical(q, i, m);
    if IsWhitespace(q[m - 1]) {
      assert BlankPart(q, m, i);
    } else {
      CutParts(q, i, m);
    }
  }

  lemma CutCanonical(q: string, i: nat, m: nat)
    requires 0 < m <= i <= |q| && Normalize(q[..i]) == Ok(q[..m]) && !IsWhitespace(q[0])
    ensures Canonical(q[..m]) <==> !IsWhitespace(q[m - 1])
  {
    hide Strip, Split, IsWhitespace;
    NormalizeTwice(q[..i]);
  }

  /** Cutting off blanks, or a slash and blanks, after anything else cuts off no blank part. */
  lemma CutParts(q: string, i: nat, m: nat)
    requires LastSlash(q) == Some(i) && 0 < m <= i && !IsSlashAt(q, m - 1) && !IsWhitespace(q[m - 1])
    requires forall k :: m <= k < i ==> IsWhitespace(q[k]) || (k == m && IsSlashAt(q, m))
    ensures HasBlankPart(q[..m]) <==> HasBlankPart(q)
  {
    hide IsWhitespace;
    NoBlankSlash();
    if HasBlankPart(q[..m]) {
      var x, y :| 0 < x < y < m && BlankPart(q[..m], x, y);
      assert BlankPart(q, x, y);
    }
    if HasBlankPart(q) {
      var x, y :| 0 < x < y < |q| && BlankPart(q, x, y);
      assert y <= i && y != m;
      assert BlankPart(q[..m], x, y);
    }
  }
}
