/**
  The string helpers of the `IOHandler` base class: the path form of
  `UsrIn`, `CleanStr` and `FileTree`.
 */
module IOHandler {
  import opened Text

  /** The path separator normalisation `UsrIn` applies to a "Path" answer. */
  function NormalisePath(answer: string): (r: string)
    ensures '\\' !in r
    ensures r == [] || Last(r) != '/'
    ensures var n := ReplaceChar(answer, '\\', '/');
      |r| <= |n| && r == n[..|r|] && forall i | |r| <= i < |n| :: n[i] == '/'
  {
    RStrip(ReplaceChar(answer, '\\', '/'), IsChar('/'))
  }

  /** `s.encode().decode("ASCII", "ignore")`: every non-ASCII character dropped. */
  function AsciiOnly(s: string): (r: string)
    ensures forall i | 0 <= i < |r| :: r[i] as int < 128
    ensures forall c | c in r :: c in s
  {
    if s == [] then []
    else if Last(s) as int < 128 then AsciiOnly(s[..|s| - 1]) + [Last(s)]
    else AsciiOnly(s[..|s| - 1])
  }

  /** Every ASCII character is kept, as often as it occurs. */
  lemma {:induction false} AsciiOnlyCounts(s: string)
    ensures forall x | x as int < 128 :: multiset(AsciiOnly(s))[x] == multiset(s)[x]
    decreases |s|
  {
    if s != [] {
      var init := s[..|s| - 1];
      AsciiOnlyCounts(init);
      assert s == init + [Last(s)];
    }
  }

  /** The filter works character by character: two pieces of text are filtered separately. */
  lemma {:induction false} AsciiOnlyAppend(a: string, b: string)
    ensures AsciiOnly(a + b) == AsciiOnly(a) + AsciiOnly(b)
    decreases |b|
  {
    if b == [] {
      assert a + b == a;
    } else {
      var init := b[..|b| - 1];
      AsciiOnlyAppend(a, init);
      assert (a + b)[..|a + b| - 1] == a + init;
      assert Last(a + b) == Last(b);
    }
  }

  const PathSymbols := "\\*\"<>|"
  const FileNameSymbols := "\\/*:\"<>|"

  /** The text `CleanStr` removes symbols from, after its optional ASCII filter and the "Path" rewrite. */
  function Prepared(text: string, kind: string, ignoreNonAscii: bool): string {
    var t := if ignoreNonAscii then AsciiOnly(text) else text;
    if kind == "Path" then RStrip(ReplaceChar(t, '\\', '/'), IsChar('/')) + "/" else t
  }

  /** The symbols `CleanStr` removes: a fixed list for "Path" and "FileName", the caller's otherwise. */
  function CleanSymbols(symbols: seq<string>, kind: string): seq<string> {
    if kind == "Path" then Chars(PathSymbols)
    else if kind == "FileName" then Chars(FileNameSymbols)
    else symbols
  }

  /** The text after `text = text.replace(symb, "")` for each symbol in turn. */
  function RemoveEach(text: string, symbols: seq<string>): string {
    if symbols == [] then text
    else RemoveAll(RemoveEach(text, symbols[..|symbols| - 1]), Last(symbols))
  }

  /** Removing a one-character symbol other than the last character keeps that last character. */
  lemma {:induction false} RemoveAllKeepsLast(s: string, pat: string)
    requires |pat| == 1 && s != [] && Last(s) != pat[0]
    ensures RemoveAll(s, pat) != [] && Last(RemoveAll(s, pat)) == Last(s)
    decreases |s|
  {
    if s[..1] == pat {
      assert s[0] == pat[0];
      RemoveAllKeepsLast(s[1..], pat);
    } else if |s| > 1 {
      RemoveAllKeepsLast(s[1..], pat);
    }
  }

  /**
    After `RemoveEach`, no one-character symbol of the list occurs, no
    character appears that was not there before, and a last character that
    is not itself a symbol stays last.
   */
  lemma {:induction false} RemoveEachProperties(text: string, symbols: seq<string>)
    ensures var r := RemoveEach(text, symbols);
      (forall k | 0 <= k < |symbols| && |symbols[k]| == 1 :: symbols[k][0] !in r) &&
      (forall c | c in r :: c in text) &&
      (text != [] && (forall k | 0 <= k < |symbols| :: |symbols[k]| == 1 && symbols[k][0] != Last(text)) ==>
        r != [] && Last(r) == Last(text))
    decreases |symbols|
  {
    if symbols != [] {
      var init := symbols[..|symbols| - 1];
      RemoveEachProperties(text, init);
      var mid := RemoveEach(text, init);
      if text != [] && (forall k | 0 <= k < |symbols| :: |symbols[k]| == 1 && symbols[k][0] != Last(text)) {
        assert forall k | 0 <= k < |init| :: init[k] == symbols[k];
        RemoveAllKeepsLast(mid, Last(symbols));
      }
      forall k | 0 <= k < |symbols| && |symbols[k]| == 1
        ensures symbols[k][0] !in RemoveEach(text, symbols)
      {
        if k < |init| {
          assert init[k] == symbols[k];
        }
      }
    }
  }

  /** The characters of the one-character symbols. */
  function SymbolChars(symbols: seq<string>): set<char> {
    set k | 0 <= k < |symbols| && |symbols[k]| == 1 :: symbols[k][0]
  }

  /** With one-character symbols only, `RemoveEach` drops exactly their characters and keeps the others in order. */
  lemma {:induction false} RemoveEachDrop(text: string, symbols: seq<string>)
    requires forall k | 0 <= k < |symbols| :: |symbols[k]| == 1
    ensures RemoveEach(text, symbols) == Drop(text, SymbolChars(symbols))
    decreases |symbols|
  {
    if symbols == [] {
      assert SymbolChars(symbols) == {};
      DropNothing(text, {});
    } else {
      var init := symbols[..|symbols| - 1];
      var c := Last(symbols)[0];
      assert Last(symbols) == [c];
      assert forall k | 0 <= k < |init| :: init[k] == symbols[k];
      RemoveEachDrop(text, init);
      RemoveAllOne(RemoveEach(text, init), c);
      DropTwice(text, SymbolChars(init), {c});
      assert SymbolChars(symbols) == SymbolChars(init) + {c} by {
        assert c == symbols[|symbols| - 1][0];
        forall x | x in SymbolChars(symbols) ensures x in SymbolChars(init) + {c} {
          var k :| 0 <= k < |symbols| && |symbols[k]| == 1 && symbols[k][0] == x;
          if k < |init| {
            assert init[k] == symbols[k];
          }
        }
      }
    }
  }

  /** The characters of a symbol string, as `CleanStr` lists them one by one. */
  lemma {:induction false} CharsSymbols(s: string)
    ensures SymbolChars(Chars(s)) == set c | c in s
  {
    forall c | c in s ensures c in SymbolChars(Chars(s)) {
      var k :| 0 <= k < |s| && s[k] == c;
      assert Chars(s)[k] == [c];
    }
  }

  /**
    What `CleanStr` leaves of the prepared text: exactly the characters
    that are not symbols, in their order, for "Path" and "FileName" and for
    any list of one-character symbols.
   */
  lemma {:induction false} CleanedText(text: string, symbols: seq<string>, kind: string, ignoreNonAscii: bool)
    ensures var r := RemoveEach(Prepared(text, kind, ignoreNonAscii), CleanSymbols(symbols, kind));
      var t := Prepared(text, kind, ignoreNonAscii);
      (kind == "Path" ==> r == Drop(t, set c | c in PathSymbols)) &&
      (kind == "FileName" ==> r == Drop(t, set c | c in FileNameSymbols)) &&
      (kind != "Path" && kind != "FileName" && (forall k | 0 <= k < |symbols| :: |symbols[k]| == 1) ==>
        r == Drop(t, SymbolChars(symbols)))
  {
    var t := Prepared(text, kind, ignoreNonAscii);
    if kind == "Path" {
      CharsSymbols(PathSymbols);
      RemoveEachDrop(t, Chars(PathSymbols));
    } else if kind == "FileName" {
      CharsSymbols(FileNameSymbols);
      RemoveEachDrop(t, Chars(FileNameSymbols));
    } else if forall k | 0 <= k < |symbols| :: |symbols[k]| == 1 {
      RemoveEachDrop(t, symbols);
    }
  }

  /**
    `CleanStr`: optionally drop non-ASCII characters, rewrite a "Path" to
    forward slashes ending in exactly one added `/`, then remove each
    symbol in turn.
   */
  method CleanStr(text: string, symbols: seq<string>, kind: string, ignoreNonAscii: bool) returns (r: string)
    ensures r == RemoveEach(Prepared(text, kind, ignoreNonAscii), CleanSymbols(symbols, kind))
    ensures kind == "Path" ==> r != [] && Last(r) == '/' && forall c | c in PathSymbols :: c !in r
    ensures kind == "FileName" ==> forall c | c in FileNameSymbols :: c !in r
    ensures ignoreNonAscii ==> forall i | 0 <= i < |r| :: r[i] as int < 128
    ensures kind == "Path" ==> r == Drop(Prepared(text, kind, ignoreNonAscii), set c | c in PathSymbols)
    ensures kind == "FileName" ==> r == Drop(Prepared(text, kind, ignoreNonAscii), set c | c in FileNameSymbols)
    ensures kind != "Path" && kind != "FileName" && (forall k | 0 <= k < |symbols| :: |symbols[k]| == 1) ==>
      r == Drop(Prepared(text, kind, ignoreNonAscii), SymbolChars(symbols))
  {
    var symbs := CleanSymbols(symbols, kind);
    r := Prepared(text, kind, ignoreNonAscii);
    ghost var start := r;
    for i := 0 to |symbs|
      invariant r == RemoveEach(start, symbs[..i])
    {
      assert symbs[..i + 1][..i] == symbs[..i];
      r := RemoveAll(r, symbs[i]);
    }
    assert symbs[..|symbs|] == symbs;
    CleanedSymbols(text, symbols, kind, ignoreNonAscii);
    CleanedAscii(text, symbols, kind, ignoreNonAscii);
    CleanedText(text, symbols, kind, ignoreNonAscii);
  }

  /** A cleaned "Path" ends in `/` and holds none of its symbols; a cleaned "FileName" none of its own. */
  lemma {:induction false} CleanedSymbols(text: string, symbols: seq<string>, kind: string, ignoreNonAscii: bool)
    ensures var r := RemoveEach(Prepared(text, kind, ignoreNonAscii), CleanSymbols(symbols, kind));
      (kind == "Path" ==> r != [] && Last(r) == '/' && forall c | c in PathSymbols :: c !in r) &&
      (kind == "FileName" ==> forall c | c in FileNameSymbols :: c !in r)
  {
    var symbs := CleanSymbols(symbols, kind);
    var start := Prepared(text, kind, ignoreNonAscii);
    var r := RemoveEach(start, symbs);
    RemoveEachProperties(start, symbs);
    if kind == "Path" {
      forall c | c in PathSymbols ensures c !in r {
        var k :| 0 <= k < |PathSymbols| && PathSymbols[k] == c;
        assert symbs[k] == [c];
      }
      assert forall k | 0 <= k < |symbs| :: |symbs[k]| == 1 && symbs[k][0] != Last(start);
    }
    if kind == "FileName" {
      forall c | c in FileNameSymbols ensures c !in r {
        var k :| 0 <= k < |FileNameSymbols| && FileNameSymbols[k] == c;
        assert symbs[k] == [c];
      }
    }
  }

  /** With the ASCII filter on, the cleaned text is ASCII only. */
  lemma {:induction false} CleanedAscii(text: string, symbols: seq<string>, kind: string, ignoreNonAscii: bool)
    ensures var r := RemoveEach(Prepared(text, kind, ignoreNonAscii), CleanSymbols(symbols, kind));
      ignoreNonAscii ==> forall i | 0 <= i < |r| :: r[i] as int < 128
  {
    var symbs := CleanSymbols(symbols, kind);
    var start := Prepared(text, kind, ignoreNonAscii);
    var r := RemoveEach(start, symbs);
    RemoveEachProperties(start, symbs);
    if ignoreNonAscii {
      var t := AsciiOnly(text);
      assert forall c | c in start :: c as int < 128 by {
        if kind == "Path" {
          forall c | c in start ensures c as int < 128 {
            var n := ReplaceChar(t, '\\', '/');
            var s := RStrip(n, IsChar('/'));
            if c != '/' {
              assert c in s;
              var j :| 0 <= j < |s| && s[j] == c;
              assert n[j] == c;
              assert t[j] == c;
            }
          }
        }
      }
      forall i | 0 <= i < |r| ensures r[i] as int < 128 {
        assert r[i] in r;
      }
    }
  }

  /** The dictionary `FileTree` returns. */
  datatype Tree = Tree(root: string, fullname: string, name: string, extension: string)

  /** `FileTree`: split a path (with `\` read as `/`) into directory, file name, name and extension. */
  function FileTree(path: string): Tree {
    var parts := Split(ReplaceChar(path, '\\', '/'), '/');
    var pieces := Split(Last(parts), '.');
    Tree(Join("/", parts[..|parts| - 1]) + "/", Last(parts), Join(".", pieces[..|pieces| - 1]), "." + Last(pieces))
  }

  /**
    The root always ends in `/` and holds everything before the file name,
    which has no separator (a path without one gets the root `/`).
   */
  lemma {:induction false} FileTreeRoot(path: string)
    ensures var t := FileTree(path);
      var n := ReplaceChar(path, '\\', '/');
      t.root != [] && Last(t.root) == '/' &&
      '/' !in t.fullname && '\\' !in t.fullname &&
      ('/' in n ==> t.root + t.fullname == n) &&
      ('/' !in n ==> t.root == "/" && t.fullname == n)
  {
    DirectoryAndFile(ReplaceChar(path, '\\', '/'));
  }

  /**
    The extension is a dot and the text after the last dot of the file
    name, and the name is what comes before that dot (empty, with the whole
    file name as extension, when there is no dot).
   */
  lemma {:induction false} FileTreeExtension(path: string)
    ensures var t := FileTree(path);
      var tail := t.extension[1..];
      |t.extension| >= 1 && t.extension[0] == '.' && '.' !in tail &&
      |tail| <= |t.fullname| && t.fullname[|t.fullname| - |tail|..] == tail &&
      ('.' in t.fullname ==> t.name + t.extension == t.fullname) &&
      ('.' !in t.fullname ==> t.name == "" && t.extension == "." + t.fullname)
  {
    NameAndExtension(FileTree(path).fullname);
  }

  /** The directory part and the file part of a normalised path. */
  lemma {:induction false} DirectoryAndFile(n: string)
    requires '\\' !in n
    ensures var parts := Split(n, '/');
      '/' !in Last(parts) && '\\' !in Last(parts) &&
      ('/' in n ==> Join("/", parts[..|parts| - 1]) + "/" + Last(parts) == n) &&
      ('/' !in n ==> |parts| == 1 && Last(parts) == n)
  {
    var parts := Split(n, '/');
    SplitJoin(n, '/');
    SplitHasSeparator(n, '/');
    LastPiece(n, '/');
    var f := Last(parts);
    forall i | 0 <= i < |f| ensures f[i] != '\\' {
      assert f[i] == n[|n| - |f| + i];
    }
  }

  /** The name and the extension of a file name, as `FileTree` builds them. */
  lemma {:induction false} NameAndExtension(f: string)
    ensures var pieces := Split(f, '.');
      var name := Join(".", pieces[..|pieces| - 1]);
      var extension := "." + Last(pieces);
      var tail := extension[1..];
      |extension| >= 1 && extension[0] == '.' && '.' !in tail &&
      |tail| <= |f| && f[|f| - |tail|..] == tail &&
      ('.' in f ==> name + extension == f) &&
      ('.' !in f ==> name == "" && extension == "." + f)
  {
    var pieces := Split(f, '.');
    SplitJoin(f, '.');
    SplitHasSeparator(f, '.');
    LastPiece(f, '.');
    var extension := "." + Last(pieces);
    assert extension[1..] == Last(pieces);
    if '.' in f {
      assert Join(".", pieces[..|pieces| - 1]) + extension == Join(".", pieces[..|pieces| - 1]) + "." + Last(pieces);
    } else {
      assert pieces[..|pieces| - 1] == [];
    }
  }
}
