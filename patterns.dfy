/** The package-level regular expressions of the web server
    (web/regexp.go), as the predicates `MatchString` decides on them.
    An expression matches when it matches some substring; only `^` and `$`
    tie it to the start and the end of the text. */
module Patterns {
  import opened GoStrings

  // ----- PatternInt: (^[0-9-]$|^[0-9-][0-9]*$) -----

  /** The class `[0-9-]`. */
  predicate DigitOrMinus(c: char)
  {
    IsDigit(c) || c == '-'
  }

  /** The first alternative, `^[0-9-]$`. */
  predicate IntSingle(s: string)
  {
    |s| == 1 && DigitOrMinus(s[0])
  }

  /** The second alternative, `^[0-9-][0-9]*$`. */
  predicate IntLeading(s: string)
  {
    |s| >= 1 && DigitOrMinus(s[0]) && AllDigits(s[1..])
  }

  predicate PatternInt(s: string)
  {
    IntSingle(s) || IntLeading(s)
  }

  /** The first alternative adds nothing: a single `[0-9-]` is a
      `[0-9-]` followed by no digits. */
  lemma PatternIntOneBranch(s: string)
    ensures IntSingle(s) ==> IntLeading(s)
    ensures PatternInt(s) <==> IntLeading(s)
  {
    if IntSingle(s) {
      assert s[1..] == [];
    }
  }

  /** A non-empty string whose first character is a digit or '-' and whose
      other characters are digits; so "-" matches and "1-" does not. */
  lemma PatternIntChars(s: string)
    ensures PatternInt(s) <==>
      |s| >= 1 && DigitOrMinus(s[0]) && forall i :: 1 <= i < |s| ==> IsDigit(s[i])
  {
    PatternIntOneBranch(s);
    if |s| >= 1 {
      assert forall i :: 1 <= i < |s| ==> s[i] == s[1..][i - 1];
    }
  }

  /** The decimal text of an integer always matches. */
  lemma {:induction false} PatternIntItoa(n: int)
    ensures PatternInt(Itoa(n))
  {
    var t := if n < 0 then NatText(-n) else NatText(n);
    if n < 0 {
      assert Itoa(n)[1..] == t;
    } else {
      assert Itoa(n) == t;
      assert AllDigits(t[1..]) by {
        assert forall i :: 0 <= i < |t| - 1 ==> t[1..][i] == t[i + 1];
      }
    }
  }

  lemma PatternIntExamples()
    ensures PatternInt("1") && PatternInt("-") && PatternInt("-12")
    ensures !PatternInt("bla") && !PatternInt("1-") && !PatternInt("")
  {
    assert "-12"[1..] == "12";
    assert "1-"[1..] == "-";
  }

  // ----- PatternRun: [0-9]+ -----

  /** `[0-9]+` matches `s[i..j]`. */
  predicate RunAt(s: string, i: int, j: int)
  {
    0 <= i < j <= |s| && AllDigits(s[i..j])
  }

  ghost predicate PatternRun(s: string)
  {
    exists i, j :: RunAt(s, i, j)
  }

  /** The run pattern is unanchored: it matches exactly the strings that
      hold a digit somewhere. */
  lemma PatternRunDigit(s: string)
    ensures PatternRun(s) <==> exists i :: 0 <= i < |s| && IsDigit(s[i])
  {
    if PatternRun(s) {
      var i, j :| RunAt(s, i, j);
      assert s[i..j][0] == s[i];
    }
    if exists i :: 0 <= i < |s| && IsDigit(s[i]) {
      var i :| 0 <= i < |s| && IsDigit(s[i]);
      assert s[i..i + 1] == [s[i]];
      assert RunAt(s, i, i + 1);
    }
  }

  lemma PatternRunExamples()
    ensures PatternRun("123") && PatternRun("run 7")
    ensures !PatternRun("bla")
  {
    PatternRunDigit("123");
    assert IsDigit("123"[0]);
    PatternRunDigit("run 7");
    assert IsDigit("run 7"[4]);
    PatternRunDigit("bla");
  }

  // ----- PatternDataset: /[-a-zA-Z_0-9*]+/[-a-zA-Z_0-9*]+/[-a-zA-Z_0-9*]+ -----

  /** The class `[-a-zA-Z_0-9*]`. */
  predicate DatasetChar(c: char)
  {
    c == '-' || ('a' <= c <= 'z') || ('A' <= c <= 'Z') || c == '_' || IsDigit(c) || c == '*'
  }

  /** `[-a-zA-Z_0-9*]+` matches `s[i..j]`. */
  predicate DatasetRun(s: string, i: int, j: int)
  {
    0 <= i < j <= |s| && forall k :: i <= k < j ==> DatasetChar(s[k])
  }

  /** The expression matches with its three slashes at `a`, `b` and `c`
      and its last run ending at `d`. */
  predicate DatasetAt(s: string, a: int, b: int, c: int, d: int)
  {
    0 <= a < |s| && s[a] == '/' && DatasetRun(s, a + 1, b) &&
    b < |s| && s[b] == '/' && DatasetRun(s, b + 1, c) &&
    c < |s| && s[c] == '/' && DatasetRun(s, c + 1, d)
  }

  ghost predicate PatternDataset(s: string)
  {
    exists a, b, c, d :: DatasetAt(s, a, b, c, d)
  }

  /** Every word of the class, at least one character long. */
  predicate DatasetWord(w: string)
  {
    |w| >= 1 && forall k :: 0 <= k < |w| ==> DatasetChar(w[k])
  }

  /** A path "/x/y/z" of three words matches, and so does any text that
      contains one. */
  lemma DatasetPath(pre: string, x: string, y: string, z: string, post: string)
    requires DatasetWord(x) && DatasetWord(y) && DatasetWord(z)
    ensures PatternDataset(pre + "/" + x + "/" + y + "/" + z + post)
  {
    var s := pre + "/" + x + "/" + y + "/" + z + post;
    var a := |pre|;
    var b := a + 1 + |x|;
    var c := b + 1 + |y|;
    var d := c + 1 + |z|;
    assert forall k :: a + 1 <= k < b ==> s[k] == x[k - a - 1];
    assert forall k :: b + 1 <= k < c ==> s[k] == y[k - b - 1];
    assert forall k :: c + 1 <= k < d ==> s[k] == z[k - c - 1];
    assert DatasetAt(s, a, b, c, d);
  }

  /** A match needs a '/'. */
  lemma DatasetNeedsSlash(s: string)
    ensures PatternDataset(s) ==> '/' in s
  {
    if PatternDataset(s) {
      var a, b, c, d :| DatasetAt(s, a, b, c, d);
      assert s[a] == '/';
    }
  }

  lemma PatternDatasetExamples()
    ensures PatternDataset("/a/b/c")
    ensures !PatternDataset("bla")
  {
    DatasetPath("", "a", "b", "c", "");
    assert "" + "/" + "a" + "/" + "b" + "/" + "c" + "" == "/a/b/c";
    DatasetNeedsSlash("bla");
  }

  // ----- PatternFile: /[a-zA-Z_0-9].*\.root$ -----

  /** The class `[a-zA-Z_0-9]`. */
  predicate WordChar(c: char)
  {
    ('a' <= c <= 'z') || ('A' <= c <= 'Z') || c == '_' || IsDigit(c)
  }

  /** The expression matches with its slash at `i`: a word character
      follows, then any characters but a newline (Go's `.`), and the text
      ends in ".root". */
  predicate FileAt(s: string, i: int)
  {
    0 <= i && i + 7 <= |s| && s[i] == '/' && WordChar(s[i + 1]) &&
    s[|s| - 5..] == ".root" &&
    forall k :: i + 2 <= k < |s| - 5 ==> s[k] != '\n'
  }

  ghost predicate PatternFile(s: string)
  {
    exists i :: FileAt(s, i)
  }

  /** Every match ends in ".root". */
  lemma FileSuffix(s: string)
    ensures PatternFile(s) ==> HasSuffix(s, ".root")
  {
  }

  /** A file `dir/name.root` matches when the name starts with a word
      character and the path holds no newline. */
  lemma FilePath(dir: string, name: string)
    requires |name| >= 1 && WordChar(name[0])
    requires '\n' !in dir + name
    ensures PatternFile(dir + "/" + name + ".root")
  {
    var s := dir + "/" + name + ".root";
    var i := |dir|;
    assert s[i] == '/' && s[i + 1] == name[0];
    assert s[|s| - 5..] == ".root";
    forall k | i + 2 <= k < |s| - 5 ensures s[k] != '\n' {
      assert s[k] == name[k - i - 1];
      assert name[k - i - 1] in dir + name;
    }
    assert FileAt(s, i);
  }

  lemma PatternFileExamples()
    ensures PatternFile("/tmp/file.root")
    ensures !PatternFile("bla") && !PatternFile("/tmp/file.txt")
  {
    FilePath("/tmp", "file");
    assert "/tmp" + "/" + "file" + ".root" == "/tmp/file.root";
    FileSuffix("/tmp/file.txt");
    assert "/tmp/file.txt"[9..] == ".txt";
  }

  // ----- PatternUrl -----

  /** The class `[-A-Za-z0-9_+&@#/%?=~_|!:,.;]` of the URL body. */
  predicate UrlChar(c: char)
  {
    c == '-' || ('A' <= c <= 'Z') || ('a' <= c <= 'z') || IsDigit(c) || c in "_+&@#/%?=~|!:,.;"
  }

  /** The class `[-A-Za-z0-9+&@#/%=~_|]` of its last character. */
  predicate UrlEnd(c: char)
  {
    c == '-' || ('A' <= c <= 'Z') || ('a' <= c <= 'z') || IsDigit(c) || c in "+&@#/%=~_|"
  }

  /** `(https|http)://` occurs at `i` and the body begins at `p`. */
  predicate SchemeAt(s: string, i: int, p: int)
  {
    0 <= i && p <= |s| &&
    ((p == i + 8 && s[i..p] == "https://") || (p == i + 7 && s[i..p] == "http://"))
  }

  /** The expression matches from `i` to `j` inclusive. */
  predicate UrlAt(s: string, i: int, p: int, j: int)
  {
    SchemeAt(s, i, p) && p <= j < |s| &&
    (forall k :: p <= k < j ==> UrlChar(s[k])) && UrlEnd(s[j])
  }

  ghost predicate PatternUrl(s: string)
  {
    exists i, p, j :: UrlAt(s, i, p, j)
  }

  /** The final class is a subset of the body class, so the body may stop
      at any final-class character: a match exists as soon as a scheme is
      followed directly by one. */
  lemma UrlShortest(s: string, i: int, p: int)
    requires SchemeAt(s, i, p) && p < |s| && UrlEnd(s[p])
    ensures PatternUrl(s)
  {
    assert UrlAt(s, i, p, p);
  }

  /** A match is at least eight characters long: a scheme and one more. */
  lemma UrlNeedsScheme(s: string)
    ensures PatternUrl(s) ==> |s| >= 8
  {
  }

  lemma PatternUrlExamples()
    ensures PatternUrl("http://abc.com") && PatternUrl("https://x")
    ensures !PatternUrl("bla") && !PatternUrl("http://")
  {
    UrlShortest("http://abc.com", 0, 7);
    UrlShortest("https://x", 0, 8);
    UrlNeedsScheme("bla");
    UrlNeedsScheme("http://");
  }
}
