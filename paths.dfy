/**
 * `getExtension` of the abstract path resolver, shared by both resolvers:
 * `path.extname(filePath).slice(1)` with Node's POSIX `extname`. The extension is
 * taken from the last path segment only (trailing separators are ignored), after
 * the last dot of that segment; a segment with no dot, whose only dot is in front
 * (".", ".bashrc"), or that is "..", has none.
 */
module Paths {
  import opened Text

  /** Drops the run of '/' at the end of a path: "../../" becomes "../..". */
  function TrimTrailingSlashes(p: string): string {
    if |p| > 0 && p[|p| - 1] == '/' then TrimTrailingSlashes(p[..|p| - 1]) else p
  }

  /** The characters after the last '/' of `p`. */
  function AfterLastSlash(p: string): string {
    if p == [] || p[|p| - 1] == '/' then []
    else AfterLastSlash(p[..|p| - 1]) + [p[|p| - 1]]
  }

  /** The last path segment ("./" gives ".", "../../" gives ".."). */
  function BaseName(p: string): string {
    AfterLastSlash(TrimTrailingSlashes(p))
  }

  /** Position of the last '.' of `s`. */
  function LastDot(s: string): (r: Option<nat>)
    ensures r.Some? ==> r.value < |s|
  {
    if s == [] then None
    else if s[|s| - 1] == '.' then Some(|s| - 1)
    else LastDot(s[..|s| - 1])
  }

  /** Trimming leaves a prefix that does not end in a separator. */
  lemma {:induction false} TrimShape(p: string)
    ensures |TrimTrailingSlashes(p)| <= |p| && TrimTrailingSlashes(p) == p[..|TrimTrailingSlashes(p)|]
    ensures TrimTrailingSlashes(p) == [] || TrimTrailingSlashes(p)[|TrimTrailingSlashes(p)| - 1] != '/'
  {
    if |p| > 0 && p[|p| - 1] == '/' {
      TrimShape(p[..|p| - 1]);
    }
  }

  /** What follows the last separator is a separator-free suffix. */
  lemma {:induction false} AfterLastSlashShape(p: string)
    ensures '/' !in AfterLastSlash(p)
    ensures |AfterLastSlash(p)| <= |p| && AfterLastSlash(p) == p[|p| - |AfterLastSlash(p)|..]
  {
    if !(p == [] || p[|p| - 1] == '/') {
      var q := p[..|p| - 1];
      AfterLastSlashShape(q);
      assert p == q + [p[|p| - 1]];
    }
  }

  lemma BaseNameShape(p: string)
    ensures '/' !in BaseName(p)
  {
    AfterLastSlashShape(TrimTrailingSlashes(p));
  }

  /** `LastDot` finds the last '.', and only when there is one. */
  lemma {:induction false} LastDotShape(s: string)
    ensures LastDot(s).None? <==> '.' !in s
    ensures LastDot(s).Some? ==> s[LastDot(s).value] == '.' && '.' !in s[LastDot(s).value + 1..]
  {
    if s != [] && s[|s| - 1] != '.' {
      var q := s[..|s| - 1];
      LastDotShape(q);
      assert s == q + [s[|s| - 1]];
      if LastDot(q).Some? {
        assert s[LastDot(q).value + 1..] == q[LastDot(q).value + 1..] + [s[|s| - 1]];
      }
    }
  }

  /** Node's `path.extname`, POSIX flavour: the extension with its dot, or "". */
  function ExtName(p: string): string {
    ExtOfSegment(BaseName(p))
  }

  function ExtOfSegment(seg: string): string {
    match LastDot(seg)
    case None => ""
    case Some(d) => if d == 0 || seg == ".." then "" else seg[d..]
  }

  /**
   * `getExtension`: the text after the last dot of the last segment, without the
   * dot; never an error, "" whenever there is no extension.
   */
  function GetExtension(p: string): string {
    SliceFrom(ExtName(p), 1)
  }

  /**
   * The extension has no dot and no separator; it is what follows the last dot of
   * the last segment, and there is none exactly when that segment is empty, has no
   * dot after its first character, or ends in a dot.
   */
  lemma GetExtensionShape(p: string)
    ensures '.' !in GetExtension(p) && '/' !in GetExtension(p)
    ensures var seg := BaseName(p); var r := GetExtension(p);
      r != "" ==> |r| + 2 <= |seg| && seg[|seg| - |r| - 1] == '.' && seg[|seg| - |r|..] == r
    ensures var seg := BaseName(p);
      GetExtension(p) == "" <==> seg == [] || '.' !in seg[1..] || seg[|seg| - 1] == '.'
  {
    BaseNameShape(p);
    ExtensionShape(BaseName(p));
  }

  lemma ExtensionShape(seg: string)
    requires '/' !in seg
    ensures var r := SliceFrom(ExtOfSegment(seg), 1);
      && '.' !in r && '/' !in r
      && (r != "" ==> |r| + 2 <= |seg| && seg[|seg| - |r| - 1] == '.' && seg[|seg| - |r|..] == r)
      && (r == "" <==> seg == [] || '.' !in seg[1..] || seg[|seg| - 1] == '.')
  {
    LastDotShape(seg);
    match LastDot(seg)
    case None =>
      if seg != [] {
        assert seg == [seg[0]] + seg[1..];
      }
    case Some(d) =>
      if d == 0 {
      } else if seg == ".." {
      } else {
        assert ExtOfSegment(seg) == seg[d..];
        assert SliceFrom(seg[d..], 1) == seg[d + 1..];
        assert seg == seg[..d + 1] + seg[d + 1..];
        assert seg[1..][d - 1] == '.';
        if d < |seg| - 1 {
          assert seg[|seg| - 1] in seg[d + 1..];
        }
      }
  }

  lemma {:induction false} AfterLastSlashOfSegment(b: string)
    requires '/' !in b
    ensures AfterLastSlash(b) == b
  {
    if b != [] {
      var b' := b[..|b| - 1];
      assert b == b' + [b[|b| - 1]];
      AfterLastSlashOfSegment(b');
    }
  }

  lemma {:induction false} AfterLastSlashOf(a: string, b: string)
    requires '/' !in b
    ensures AfterLastSlash(a + "/" + b) == b
  {
    var p := a + "/" + b;
    if b == [] {
      assert p[|p| - 1] == '/';
    } else {
      var b' := b[..|b| - 1];
      assert b == b' + [b[|b| - 1]];
      assert p[..|p| - 1] == a + "/" + b';
      AfterLastSlashOf(a, b');
    }
  }

  lemma {:induction false} LastDotAt(s: string, d: nat)
    requires d < |s| && s[d] == '.' && '.' !in s[d + 1..]
    ensures LastDot(s) == Some(d)
  {
    if d < |s| - 1 {
      assert s[|s| - 1] in s[d + 1..];
      var s' := s[..|s| - 1];
      assert s'[d + 1..] == s[d + 1..|s| - 1];
      assert s[d + 1..] == s'[d + 1..] + [s[|s| - 1]];
      LastDotAt(s', d);
    }
  }

  lemma {:induction false} NoDot(s: string)
    requires '.' !in s
    ensures LastDot(s) == None
  {
    LastDotShape(s);
  }

  /** A last segment whose last dot is after its first character gives what follows that dot. */
  lemma {:induction false} ExtensionAfterDot(p: string, seg: string, d: nat)
    requires BaseName(p) == seg && 0 < d < |seg| && seg[d] == '.' && '.' !in seg[d + 1..] && seg != ".."
    ensures GetExtension(p) == seg[d + 1..]
  {
    LastDotAt(seg, d);
    assert ExtName(p) == seg[d..];
  }

  /** A last segment without a dot, with its only dot in front, or "..", gives no extension. */
  lemma {:induction false} NoExtensionOf(p: string, seg: string)
    requires BaseName(p) == seg
    requires LastDot(seg) == None || LastDot(seg) == Some(0) || seg == ".."
    ensures GetExtension(p) == ""
  {
    assert ExtName(p) == "";
  }

  lemma BaseNameOfFile(a: string, b: string)
    requires '/' !in b && b != []
    ensures BaseName(a + "/" + b) == b
  {
    var p := a + "/" + b;
    assert p[|p| - 1] == b[|b| - 1];
    assert TrimTrailingSlashes(p) == p;
    AfterLastSlashOf(a, b);
  }

  lemma BaseNameOfSegment(b: string)
    requires '/' !in b && b != []
    ensures BaseName(b) == b
  {
    assert TrimTrailingSlashes(b) == b;
    AfterLastSlashOfSegment(b);
  }

  lemma ExtensionOfFile()
    ensures GetExtension("index.ts") == "ts"
  {
    BaseNameOfSegment("index.ts");
    ExtensionAfterDot("index.ts", "index.ts", 5);
  }

  lemma ExtensionOfNestedFile()
    ensures GetExtension("src/code/index.ts") == "ts"
  {
    assert "src/code/index.ts" == "src/code" + "/" + "index.ts";
    BaseNameOfFile("src/code", "index.ts");
    ExtensionAfterDot("src/code/index.ts", "index.ts", 5);
  }

  lemma ExtensionOfDeepFile()
    ensures GetExtension("../../index.tsx") == "tsx"
  {
    assert "../../index.tsx" == "../.." + "/" + "index.tsx";
    BaseNameOfFile("../..", "index.tsx");
    ExtensionAfterDot("../../index.tsx", "index.tsx", 5);
  }

  lemma ExtensionOfDoubleDottedFile()
    ensures GetExtension("../../index.test.ts") == "ts"
  {
    assert "../../index.test.ts" == "../.." + "/" + "index.test.ts";
    BaseNameOfFile("../..", "index.test.ts");
    ExtensionAfterDot("../../index.test.ts", "index.test.ts", 10);
  }

  lemma NoExtensionOfCurrentDirectory()
    ensures GetExtension(".") == ""
  {
    BaseNameOfSegment(".");
    LastDotAt(".", 0);
    NoExtensionOf(".", ".");
  }

  lemma NoExtensionOfCurrentDirectorySlash()
    ensures GetExtension("./") == ""
  {
    assert TrimTrailingSlashes("./") == TrimTrailingSlashes(".");
    BaseNameOfSegment(".");
    LastDotAt(".", 0);
    NoExtensionOf("./", ".");
  }

  lemma NoExtensionOfBareFile()
    ensures GetExtension("src/code/index") == ""
  {
    assert "src/code/index" == "src/code" + "/" + "index";
    BaseNameOfFile("src/code", "index");
    NoDot("index");
    NoExtensionOf("src/code/index", "index");
  }

  lemma NoExtensionOfParentDirectory()
    ensures GetExtension("../../") == ""
  {
    assert TrimTrailingSlashes("../../") == TrimTrailingSlashes("../..");
    assert "../.." == ".." + "/" + "..";
    BaseNameOfFile("..", "..");
    NoExtensionOf("../../", "..");
  }
}
