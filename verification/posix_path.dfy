/**
 * POSIX path strings as Python's `posixpath` and `pathlib` (3.12) treat them.
 *
 * A path string is split on '/' exactly as `str.split("/")` does. Two views
 * of it are used by the file server:
 *  - `NormPath`, the lexical normaliser `os.path.normpath`, which collapses
 *    "." and "..", and
 *  - the `pathlib` view (`InitialSlashes`, `Parts`, `PurePathStr`), which keeps
 *    ".." but drops empty and "." pieces.
 * Both keep a root of zero, one or two slashes: exactly two leading slashes
 * are kept as two, three or more become one.
 */
module PosixPath {

  const Sep: char := '/'

  /** `posixpath.isabs`. */
  predicate IsAbs(s: string) {
    |s| > 0 && s[0] == Sep
  }

  /** A name that may stand between two separators of a normalised path. */
  predicate IsName(c: string) {
    c != "" && c != "." && Sep !in c
  }

  predicate AllNames(parts: seq<string>) {
    forall k | 0 <= k < |parts| :: IsName(parts[k])
  }

  // ---------------------------------------------------------------------------
  // str.split("/") and "/".join
  // ---------------------------------------------------------------------------

  /** `s.split("/")`: the pieces between separators, always at least one. */
  function Split(s: string): (r: seq<string>)
    ensures |r| >= 1
    decreases |s|
  {
    if |s| == 0 then [""]
    else if s[0] == Sep then [""] + Split(s[1..])
    else
      var rest := Split(s[1..]);
      [[s[0]] + rest[0]] + rest[1..]
  }

  /** No piece of a split holds a separator. */
  lemma {:induction false} SplitPiecesHaveNoSep(s: string)
    ensures forall k | 0 <= k < |Split(s)| :: Sep !in Split(s)[k]
    decreases |s|
  {
    if |s| > 0 {
      SplitPiecesHaveNoSep(s[1..]);
      if s[0] != Sep {
        var rest := Split(s[1..]);
        assert Split(s)[0] == [s[0]] + rest[0];
        forall k | 1 <= k < |Split(s)| ensures Split(s)[k] == rest[k] {
        }
      }
    }
  }

  /** `"/".join(parts)`. */
  function Join(parts: seq<string>): string
    decreases |parts|
  {
    if |parts| == 0 then ""
    else if |parts| == 1 then parts[0]
    else parts[0] + [Sep] + Join(parts[1..])
  }

  /** A separator splits the string in two: the pieces of each side, in order. */
  lemma {:induction false} SplitAppend(x: string, y: string)
    ensures Split(x + [Sep] + y) == Split(x) + Split(y)
    decreases |x|
  {
    if |x| == 0 {
      assert x + [Sep] + y == [Sep] + y;
      SplitSlash(y);
    } else {
      var c, t := x[0], x[1..];
      assert x == [c] + t;
      assert x + [Sep] + y == [c] + (t + [Sep] + y);
      SplitAppend(t, y);
      var left, right := Split(t), Split(y);
      if c == Sep {
        SplitSlash(t);
        SplitSlash(t + [Sep] + y);
        Associative([""], left, right);
      } else {
        SplitChar(c, t);
        SplitChar(c, t + [Sep] + y);
        assert (left + right)[0] == left[0];
        assert (left + right)[1..] == left[1..] + right;
        Associative([[c] + left[0]], left[1..], right);
      }
    }
  }

  lemma Associative<T>(a: seq<T>, b: seq<T>, c: seq<T>)
    ensures a + (b + c) == (a + b) + c
  {
  }

  /** A leading separator opens an empty first piece. */
  lemma SplitSlash(t: string)
    ensures Split([Sep] + t) == [""] + Split(t)
  {
    assert ([Sep] + t)[1..] == t;
  }

  /** Any other leading character joins the first piece. */
  lemma SplitChar(c: char, t: string)
    requires c != Sep
    ensures Split([c] + t) == [[c] + Split(t)[0]] + Split(t)[1..]
  {
    assert ([c] + t)[1..] == t;
  }

  /** A string without separators is a single piece. */
  lemma {:induction false} SplitName(x: string)
    requires Sep !in x
    ensures Split(x) == [x]
    decreases |x|
  {
    if |x| > 0 {
      assert Sep !in x[1..] by {
        forall k | 0 <= k < |x| - 1 ensures x[1..][k] != Sep {
          assert x[1..][k] == x[k + 1];
        }
      }
      SplitName(x[1..]);
      assert [x[0]] + x[1..] == x;
    }
  }

  /** Joining pieces that hold no separator and splitting again gives the pieces back. */
  lemma {:induction false} SplitJoin(parts: seq<string>)
    requires |parts| >= 1
    requires forall k | 0 <= k < |parts| :: Sep !in parts[k]
    ensures Split(Join(parts)) == parts
    decreases |parts|
  {
    SplitName(parts[0]);
    if |parts| > 1 {
      SplitJoin(parts[1..]);
      SplitAppend(parts[0], Join(parts[1..]));
      assert [parts[0]] + parts[1..] == parts;
    }
  }

  /** Splitting and joining again gives the string back. */
  lemma {:induction false} JoinSplit(s: string)
    ensures Join(Split(s)) == s
    decreases |s|
  {
    if |s| > 0 {
      JoinSplit(s[1..]);
      var rest := Split(s[1..]);
      if s[0] == Sep {
        if |rest| == 1 {
          assert Join([""] + rest) == "" + [Sep] + rest[0];
        } else {
          assert ([""] + rest)[1..] == rest;
        }
        assert [Sep] + s[1..] == s;
      } else {
        var r := [[s[0]] + rest[0]] + rest[1..];
        if |rest| == 1 {
          assert Join(r) == [s[0]] + rest[0];
        } else {
          assert r[1..] == rest[1..];
          assert Join(rest) == rest[0] + [Sep] + Join(rest[1..]);
        }
        assert [s[0]] + s[1..] == s;
      }
    }
  }

  /** The first character of a join is the first character of its first piece. */
  lemma JoinHead(parts: seq<string>)
    requires |parts| >= 1 && parts[0] != ""
    ensures |Join(parts)| > 0 && Join(parts)[0] == parts[0][0]
  {
  }

  /** A join starts with its first piece. */
  lemma JoinStartsWithFirst(parts: seq<string>)
    requires |parts| >= 1
    ensures parts[0] <= Join(parts)
  {
    if |parts| > 1 {
      assert Join(parts) == parts[0] + ([Sep] + Join(parts[1..]));
    }
  }

  // ---------------------------------------------------------------------------
  // The root: zero, one or two leading slashes
  // ---------------------------------------------------------------------------

  type RootWidth = n: nat | n <= 2

  /** How many leading slashes survive normalisation: exactly two stay two, three or more become one. */
  function InitialSlashes(s: string): RootWidth {
    if |s| >= 2 && s[0] == Sep && s[1] == Sep && !(|s| >= 3 && s[2] == Sep) then 2
    else if |s| >= 1 && s[0] == Sep then 1
    else 0
  }

  function Slashes(n: RootWidth): string {
    if n == 0 then "" else if n == 1 then [Sep] else [Sep, Sep]
  }

  /** A root followed by names joined with '/'; the empty relative path is ".". */
  function Format(root: RootWidth, parts: seq<string>): string {
    var p := Slashes(root) + Join(parts);
    if p == "" then "." else p
  }

  // ---------------------------------------------------------------------------
  // pathlib: parsing, str() and the `/` operator
  // ---------------------------------------------------------------------------

  /** Drops the empty and "." pieces, keeping the rest in order. */
  function DropTrivial(comps: seq<string>): seq<string>
    decreases |comps|
  {
    if |comps| == 0 then []
    else (if comps[0] == "" || comps[0] == "." then [] else [comps[0]]) + DropTrivial(comps[1..])
  }

  lemma {:induction false} DropTrivialAppend(a: seq<string>, b: seq<string>)
    ensures DropTrivial(a + b) == DropTrivial(a) + DropTrivial(b)
    decreases |a|
  {
    if |a| > 0 {
      assert (a + b)[0] == a[0];
      assert (a + b)[1..] == a[1..] + b;
      DropTrivialAppend(a[1..], b);
      var h := if a[0] == "" || a[0] == "." then [] else [a[0]];
      calc {
        DropTrivial(a + b);
        h + DropTrivial(a[1..] + b);
        h + (DropTrivial(a[1..]) + DropTrivial(b));
        (h + DropTrivial(a[1..])) + DropTrivial(b);
        DropTrivial(a) + DropTrivial(b);
      }
    } else {
      assert a + b == b;
    }
  }

  /** What is left of pieces without separators is names only. */
  lemma {:induction false} DropTrivialLeavesNames(comps: seq<string>)
    requires forall k | 0 <= k < |comps| :: Sep !in comps[k]
    ensures AllNames(DropTrivial(comps))
    decreases |comps|
  {
    if |comps| > 0 {
      DropTrivialLeavesNames(comps[1..]);
    }
  }

  /** Names pass through unchanged. */
  lemma {:induction false} DropTrivialNames(parts: seq<string>)
    requires AllNames(parts)
    ensures DropTrivial(parts) == parts
    decreases |parts|
  {
    if |parts| > 0 {
      DropTrivialNames(parts[1..]);
      assert [parts[0]] + parts[1..] == parts;
    }
  }

  /** The names of a path as `pathlib` parses it (its `_tail`): empty and "." pieces dropped, ".." kept. */
  function Parts(s: string): seq<string> {
    DropTrivial(Split(s))
  }

  lemma PartsAreNames(s: string)
    ensures AllNames(Parts(s))
  {
    SplitPiecesHaveNoSep(s);
    DropTrivialLeavesNames(Split(s));
  }

  /** `str(PurePosixPath(s))`. */
  function PurePathStr(s: string): string {
    Format(InitialSlashes(s), Parts(s))
  }

  /** `posixpath.join(a, b)`: an absolute `b` replaces `a`. */
  function PosixJoin(a: string, b: string): string {
    if IsAbs(b) then b
    else if a == "" || a[|a| - 1] == Sep then a + b
    else a + [Sep] + b
  }

  /** `str(PurePosixPath(a) / b)`. */
  function JoinPath(a: string, b: string): string {
    PurePathStr(PosixJoin(a, b))
  }

  /** Parsing a bare root, or ".", gives back that root and no names. */
  lemma ParseRoot(root: RootWidth)
    ensures InitialSlashes(Format(root, [])) == root
    ensures Parts(Format(root, [])) == []
  {
    var f := Format(root, []);
    if root == 0 {
      assert f == ".";
      SplitName(".");
    } else if root == 1 {
      assert f == [Sep] + "";
      SplitSlash("");
      assert Split(f) == ["", ""];
      assert DropTrivial(["", ""]) == [] by {
        assert ["", ""][1..] == [""];
      }
    } else {
      assert f == [Sep] + ([Sep] + "");
      SplitSlash([Sep] + "");
      SplitSlash("");
      assert Split(f) == ["", "", ""];
      assert DropTrivial(["", "", ""]) == [] by {
        assert ["", "", ""][1..] == ["", ""];
        assert ["", ""][1..] == [""];
      }
    }
  }

  /** The empty pieces a root of `root` slashes splits into. */
  function RootPieces(root: RootWidth): seq<string> {
    if root == 0 then [] else if root == 1 then [""] else ["", ""]
  }

  /** Each leading slash contributes one empty piece. */
  lemma SplitRooted(root: RootWidth, j: string)
    ensures Split(Slashes(root) + j) == RootPieces(root) + Split(j)
  {
    if root == 1 {
      assert Slashes(root) + j == [Sep] + j;
      SplitSlash(j);
    } else if root == 2 {
      assert Slashes(root) + j == [Sep] + ([Sep] + j);
      SplitSlash([Sep] + j);
      SplitSlash(j);
    } else {
      assert Slashes(root) + j == j;
    }
  }

  /** The empty pieces of a root are dropped. */
  lemma DropRootPieces(root: RootWidth, xs: seq<string>)
    ensures DropTrivial(RootPieces(root) + xs) == DropTrivial(xs)
  {
    if root == 1 {
      assert ([""] + xs)[1..] == xs;
    } else if root == 2 {
      assert (["", ""] + xs)[1..] == [""] + xs;
      assert ([""] + xs)[1..] == xs;
    } else {
      assert RootPieces(root) + xs == xs;
    }
  }

  /** The names of a rooted, formatted path are the names it was built from. */
  lemma ParseFormatNames(root: RootWidth, parts: seq<string>)
    requires |parts| >= 1
    requires AllNames(parts)
    ensures Parts(Slashes(root) + Join(parts)) == parts
  {
    var j := Join(parts);
    assert forall k | 0 <= k < |parts| :: Sep !in parts[k];
    SplitJoin(parts);
    DropTrivialNames(parts);
    SplitRooted(root, j);
    DropRootPieces(root, parts);
  }

  /** The empty path and "." have no names. */
  lemma NoNames()
    ensures Parts("") == [] && Parts(".") == []
  {
    SplitName(".");
    assert DropTrivial([""]) == [];
    assert DropTrivial(["."]) == [];
  }

  /** Names joined with '/' parse back to those names. */
  lemma PartsOfJoin(parts: seq<string>)
    requires AllNames(parts)
    ensures Parts(Join(parts)) == parts
  {
    if |parts| == 0 {
      NoNames();
    } else {
      ParseFormatNames(0, parts);
      assert Slashes(0) + Join(parts) == Join(parts);
    }
  }

  /** Parsing a formatted path gives back its root and its names. */
  lemma ParseFormat(root: RootWidth, parts: seq<string>)
    requires AllNames(parts)
    ensures InitialSlashes(Format(root, parts)) == root
    ensures Parts(Format(root, parts)) == parts
  {
    if |parts| == 0 {
      ParseRoot(root);
    } else {
      JoinHead(parts);
      assert Format(root, parts) == Slashes(root) + Join(parts);
      ParseFormatNames(root, parts);
    }
  }

  /** The pathlib string of a path is already in pathlib's canonical form. */
  lemma PurePathStrIdempotent(s: string)
    ensures PurePathStr(PurePathStr(s)) == PurePathStr(s)
  {
    PartsAreNames(s);
    ParseFormat(InitialSlashes(s), Parts(s));
  }

  /** Joining a relative path onto `a` keeps the root of `a`. */
  lemma PosixJoinRoot(a: string, b: string)
    requires !IsAbs(b)
    ensures InitialSlashes(PosixJoin(a, b)) == InitialSlashes(a)
  {
    var j := PosixJoin(a, b);
    if a == "" {
    } else if |a| >= 3 {
      assert j[..3] == a[..3];
    } else if a[|a| - 1] == Sep {
      assert j == a + b;
      if |a| == 2 {
        assert j[..2] == a;
      }
    } else {
      assert j == a + [Sep] + b;
      if |a| == 2 {
        assert j[..3] == a + [Sep];
      } else {
        assert j[..2] == a + [Sep];
      }
    }
  }

  /** Joining a relative path onto `a` appends its names to those of `a`. */
  lemma PosixJoinNames(a: string, b: string)
    requires !IsAbs(b)
    ensures Parts(PosixJoin(a, b)) == Parts(a) + Parts(b)
  {
    var j := PosixJoin(a, b);
    if a == "" {
      assert j == b;
      assert Parts(a) == [];
    } else if a[|a| - 1] == Sep {
      var a' := a[..|a| - 1];
      assert a == a' + [Sep];
      assert j == a' + [Sep] + b;
      SeparatedNames(a', b);
      TrailingSepNames(a');
    } else {
      assert j == a + [Sep] + b;
      SeparatedNames(a, b);
    }
  }

  /** A trailing separator adds no name. */
  lemma TrailingSepNames(x: string)
    ensures Parts(x + [Sep]) == Parts(x)
  {
    assert x + [Sep] == x + [Sep] + "";
    SeparatedNames(x, "");
    NoNames();
  }

  /** The names of `x/y` are the names of `x` followed by those of `y`. */
  lemma SeparatedNames(x: string, y: string)
    ensures Parts(x + [Sep] + y) == Parts(x) + Parts(y)
  {
    SplitAppend(x, y);
    DropTrivialAppend(Split(x), Split(y));
  }

  /** `PurePosixPath(a) / b` for a relative `b`: same root as `a`, and the names of `b` after those of `a`. */
  lemma JoinPathParts(a: string, b: string)
    requires !IsAbs(b)
    ensures InitialSlashes(JoinPath(a, b)) == InitialSlashes(a)
    ensures Parts(JoinPath(a, b)) == Parts(a) + Parts(b)
  {
    PosixJoinRoot(a, b);
    PosixJoinNames(a, b);
    var j := PosixJoin(a, b);
    PartsAreNames(j);
    ParseFormat(InitialSlashes(j), Parts(j));
  }

  // ---------------------------------------------------------------------------
  // os.path.normpath
  // ---------------------------------------------------------------------------

  /**
   * The stack `Collapse` builds: names only, every ".." ahead of every other
   * name, and no ".." at all beneath a root.
   */
  predicate Collapsed(st: seq<string>, rooted: bool) {
    && AllNames(st)
    && (forall i, j | 0 <= i < j < |st| :: st[j] == ".." ==> st[i] == "..")
    && (rooted ==> forall k | 0 <= k < |st| :: st[k] != "..")
  }

  /**
   * The loop of `normpath` over the pieces: skip empty and "." pieces; a ".."
   * pops the previous name unless there is none to pop (kept for a relative
   * path, dropped at a root) or the previous entry is itself "..".
   */
  function Collapse(comps: seq<string>, stack: seq<string>, rooted: bool): seq<string>
    decreases |comps|
  {
    if |comps| == 0 then stack
    else
      var c := comps[0];
      var next :=
        if c == "" || c == "." then stack
        else if c != ".." || (!rooted && stack == []) || (stack != [] && stack[|stack| - 1] == "..") then stack + [c]
        else if stack != [] then stack[..|stack| - 1]
        else stack;
      Collapse(comps[1..], next, rooted)
  }

  /** Each step of the loop keeps the stack collapsed. */
  lemma {:induction false} CollapseKeepsCollapsed(comps: seq<string>, stack: seq<string>, rooted: bool)
    requires Collapsed(stack, rooted)
    requires forall k | 0 <= k < |comps| :: Sep !in comps[k]
    ensures Collapsed(Collapse(comps, stack, rooted), rooted)
    decreases |comps|
  {
    if |comps| > 0 {
      var c := comps[0];
      var next :=
        if c == "" || c == "." then stack
        else if c != ".." || (!rooted && stack == []) || (stack != [] && stack[|stack| - 1] == "..") then stack + [c]
        else if stack != [] then stack[..|stack| - 1]
        else stack;
      assert Collapsed(next, rooted);
      CollapseKeepsCollapsed(comps[1..], next, rooted);
    }
  }

  /** The stack of names `normpath` keeps for `s`, below its root. */
  function NormStack(s: string): seq<string> {
    Collapse(Split(s), [], InitialSlashes(s) > 0)
  }

  /** `os.path.normpath(s)` on a POSIX system. */
  function NormPath(s: string): (r: string)
    ensures r != ""
  {
    Format(InitialSlashes(s), NormStack(s))
  }

  /** The names of `NormPath(s)` form a collapsed stack: no empty, "." or inner "..". */
  lemma NormPathCollapsed(s: string)
    ensures Collapsed(NormStack(s), InitialSlashes(s) > 0)
  {
    SplitPiecesHaveNoSep(s);
    CollapseKeepsCollapsed(Split(s), [], InitialSlashes(s) > 0);
  }

  /** `normpath` keeps a path absolute or relative. */
  lemma NormPathKeepsRoot(s: string)
    ensures IsAbs(NormPath(s)) <==> IsAbs(s)
  {
    var root := InitialSlashes(s);
    var st := NormStack(s);
    NormPathCollapsed(s);
    if root == 0 && |st| > 0 {
      assert IsName(st[0]);
      JoinHead(st);
      assert Format(root, st) == Join(st);
    }
  }

  /** A stack that is already collapsed passes through the loop unchanged. */
  lemma {:induction false} CollapseFixesCollapsed(comps: seq<string>, stack: seq<string>)
    requires Collapsed(stack + comps, false)
    ensures Collapse(comps, stack, false) == stack + comps
    decreases |comps|
  {
    if |comps| > 0 {
      var c := comps[0];
      var all := stack + comps;
      assert all[|stack|] == c;
      assert IsName(c);
      if c == ".." && stack != [] {
        assert all[|stack| - 1] == "..";
      }
      assert stack + [c] + comps[1..] == all;
      CollapseFixesCollapsed(comps[1..], stack + [c]);
    }
  }

  /** A relative path already in normal form is its own `normpath`. */
  lemma NormPathFixesNormalForm(st: seq<string>)
    requires st != []
    requires Collapsed(st, false)
    ensures NormPath(Join(st)) == Join(st)
  {
    var j := Join(st);
    JoinHead(st);
    assert InitialSlashes(j) == 0;
    SplitJoin(st);
    CollapseFixesCollapsed(st, []);
    assert [] + st == st;
  }

  /** `s.lstrip("/")`. */
  function LStripSlashes(s: string): (r: string)
    ensures !IsAbs(r)
    decreases |s|
  {
    if |s| > 0 && s[0] == Sep then LStripSlashes(s[1..]) else s
  }

  /** `lstrip` removes a prefix made of slashes only, and nothing else. */
  lemma {:induction false} LStripRemovesLeadingSlashes(s: string)
    ensures var r := LStripSlashes(s);
            && |r| <= |s| && r == s[|s| - |r|..]
            && forall k | 0 <= k < |s| - |r| :: s[k] == Sep
    decreases |s|
  {
    if |s| > 0 && s[0] == Sep {
      LStripRemovesLeadingSlashes(s[1..]);
      var r := LStripSlashes(s);
      forall k | 0 <= k < |s| - |r|
        ensures s[k] == Sep
      {
        if k > 0 {
          assert s[k] == s[1..][k - 1];
        }
      }
    }
  }

  /** Stripping the leading slashes of a root followed by a relative string leaves that string. */
  lemma LStripRoot(root: RootWidth, j: string)
    requires !IsAbs(j)
    ensures LStripSlashes(Slashes(root) + j) == j
  {
    if root == 1 {
      assert (Slashes(root) + j)[1..] == j;
    } else if root == 2 {
      assert (Slashes(root) + j)[1..] == [Sep] + j;
      assert ([Sep] + j)[1..] == j;
      assert LStripSlashes(Slashes(root) + j) == LStripSlashes([Sep] + j);
      assert LStripSlashes([Sep] + j) == LStripSlashes(j);
    } else {
      assert Slashes(root) + j == j;
    }
  }

  // ---------------------------------------------------------------------------
  // pathlib: name and suffix
  // ---------------------------------------------------------------------------

  /** `PurePosixPath(s).name`: the last name, or "" for a bare root or ".". */
  function Name(s: string): string {
    var parts := Parts(s);
    if |parts| == 0 then "" else parts[|parts| - 1]
  }

  /** `s.rfind(".")`: the index of the last '.', or -1 when there is none. */
  function LastDot(s: string): (r: int)
    ensures -1 <= r < |s|
    ensures r >= 0 ==> s[r] == '.'
    ensures forall k | r < k < |s| :: s[k] != '.'
    decreases |s|
  {
    if |s| == 0 then -1
    else if s[|s| - 1] == '.' then |s| - 1
    else LastDot(s[..|s| - 1])
  }

  /**
   * `PurePosixPath(s).suffix`: from the last '.' of the name, provided that
   * dot is neither the first nor the last character of the name.
   */
  function Suffix(s: string): (r: string)
    ensures r == "" || (2 <= |r| && r[0] == '.')
  {
    var name := Name(s);
    var i := LastDot(name);
    if 0 < i < |name| - 1 then name[i..] else ""
  }

  /**
   * A non-empty suffix starts with the last '.' of the name, holds at least
   * one more character and no other '.', and is not the whole name.
   */
  lemma SuffixShape(s: string)
    ensures var r := Suffix(s); var name := Name(s);
            r != "" ==> && 2 <= |r| < |name|
                        && r == name[|name| - |r|..]
                        && r[0] == '.'
                        && '.' !in r[1..]
  {
    var name := Name(s);
    var i := LastDot(name);
    if 0 < i < |name| - 1 {
      var r := name[i..];
      assert |name| - |r| == i;
      forall k | 0 <= k < |r| - 1
        ensures r[1..][k] != '.'
      {
        assert r[1..][k] == name[i + 1 + k];
      }
    }
  }

  /**
   * The suffix is non-empty exactly when the name has a '.' that is neither
   * its first nor its last character and has no other '.' after it.
   */
  lemma SuffixPresent(s: string)
    ensures var name := Name(s);
            Suffix(s) != "" <==>
              exists i | 0 < i < |name| - 1 :: name[i] == '.' && forall k | i < k < |name| :: name[k] != '.'
  {
    var name := Name(s);
    var d := LastDot(name);
    if 0 < d < |name| - 1 {
      assert name[d] == '.';
    }
    forall i | 0 < i < |name| - 1 && name[i] == '.' && (forall k | i < k < |name| :: name[k] != '.')
      ensures i == d
    {
    }
  }
}
