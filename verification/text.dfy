/**
 * The string and path primitives of .NET that the program relies on, in the
 * approximation the model uses: ASCII-only case mapping, ordinal comparison in
 * place of the culture-sensitive default string comparer, and Windows path
 * separators.
 */
module Text {
  import opened Wrappers

  /** ASCII lower-casing of one character (`ToLowerInvariant` restricted to A-Z). */
  function LowerChar(c: char): char
  {
    if 'A' <= c <= 'Z' then (c as int + 32) as char else c
  }

  /** `string.ToLowerInvariant`, character by character. */
  function ToLower(s: string): (r: string)
    ensures |r| == |s|
    ensures forall k :: 0 <= k < |s| ==>
              if 'A' <= s[k] <= 'Z' then r[k] as int == s[k] as int + 32 else r[k] == s[k]
  {
    seq(|s|, k requires 0 <= k < |s| => LowerChar(s[k]))
  }

  /** No upper-case ASCII letter occurs in `s`. */
  predicate IsLower(s: string)
  {
    forall k :: 0 <= k < |s| ==> !('A' <= s[k] <= 'Z')
  }

  lemma ToLowerIsLower(s: string)
    ensures |ToLower(s)| == |s|
    ensures IsLower(ToLower(s))
  {
  }

  /** Lower-casing a lower-case string changes nothing; so lower-casing twice is lower-casing once. */
  lemma LowerOfLower(s: string)
    ensures IsLower(s) ==> ToLower(s) == s
    ensures ToLower(ToLower(s)) == ToLower(s)
  {
    ToLowerIsLower(s);
    assert forall k :: 0 <= k < |s| && IsLower(s) ==> ToLower(s)[k] == s[k];
  }

  /** Lower-casing works character by character, so it distributes over concatenation. */
  lemma ToLowerAppend(a: string, b: string)
    ensures ToLower(a + b) == ToLower(a) + ToLower(b)
  {
  }

  /** A directory separator on Windows: both '\' and '/'. */
  predicate IsSeparator(c: char)
  {
    c == '\\' || c == '/'
  }

  /**
   * `Path.GetExtension`: scans the path backwards from the end for a '.',
   * stopping at a directory separator. A trailing '.' gives the empty extension.
   */
  function Extension(path: string): (r: string)
    ensures IsExtensionOf(r, path)
    ensures forall d :: ExtensionDot(path, d) ==> r == path[d..]
    ensures r != "" ==> ExtensionDot(path, |path| - |r|)
  {
    ExtensionScanShape(path, |path|);
    ExtensionScanFindsAll(path);
    ExtensionStartsAtDot(ExtensionScan(path, |path|), path);
    ExtensionScan(path, |path|)
  }

  /**
   * `path[d]` is a '.' that starts an extension: at least one character follows
   * it, and none of those is a '.' or a separator.
   */
  predicate ExtensionDot(path: string, d: int)
  {
    0 <= d < |path| - 1 && path[d] == '.' &&
    forall k :: d < k < |path| ==> path[k] != '.' && !IsSeparator(path[k])
  }

  /** The backward scan of `Extension`, having looked at the characters from index `i` on. */
  function ExtensionScan(path: string, i: nat): string
    requires i <= |path|
    decreases i
  {
    if i == 0 then ""
    else if path[i - 1] == '.' then (if i != |path| then path[i - 1..] else "")
    else if IsSeparator(path[i - 1]) then ""
    else ExtensionScan(path, i - 1)
  }

  /** What an extension looks like: empty, or a '.' followed by at least one character that is neither '.' nor a separator. */
  predicate IsExtensionOf(e: string, path: string)
  {
    e == "" ||
    (|e| >= 2 && |e| <= |path| && e[0] == '.' && e == path[|path| - |e|..] &&
     forall k :: 1 <= k < |e| ==> e[k] != '.' && !IsSeparator(e[k]))
  }

  lemma {:induction false} ExtensionScanShape(path: string, i: nat)
    requires i <= |path|
    requires forall k :: i <= k < |path| ==> path[k] != '.' && !IsSeparator(path[k])
    ensures IsExtensionOf(ExtensionScan(path, i), path)
    decreases i
  {
    if i > 0 && path[i - 1] != '.' && !IsSeparator(path[i - 1]) {
      ExtensionScanShape(path, i - 1);
    }
  }

  /** A non-empty extension starts at a '.' that `ExtensionDot` accepts. */
  lemma ExtensionStartsAtDot(e: string, path: string)
    ensures IsExtensionOf(e, path) && e != "" ==> ExtensionDot(path, |path| - |e|)
  {
    if IsExtensionOf(e, path) && e != "" {
      var d := |path| - |e|;
      forall k | d < k < |path| ensures path[k] != '.' && !IsSeparator(path[k]) {
        assert path[k] == e[k - d];
      }
    }
  }

  /** The backward scan stops at that '.' and returns the suffix from it. */
  lemma {:induction false} ExtensionScanFinds(path: string, d: int, i: nat)
    requires ExtensionDot(path, d) && d < i <= |path|
    ensures ExtensionScan(path, i) == path[d..]
    decreases i
  {
    if i - 1 != d {
      assert path[i - 1] != '.' && !IsSeparator(path[i - 1]);
      ExtensionScanFinds(path, d, i - 1);
    }
  }

  lemma ExtensionScanFindsAll(path: string)
    ensures forall d :: ExtensionDot(path, d) ==> ExtensionScan(path, |path|) == path[d..]
  {
    forall d | ExtensionDot(path, d) ensures ExtensionScan(path, |path|) == path[d..] {
      ExtensionScanFinds(path, d, |path|);
    }
  }

  /** `Path.Combine(dir, name)` for a relative `name` that does not start with a separator. */
  function JoinPath(dir: string, name: string): (r: string)
    ensures |r| >= |dir| && r[..|dir|] == dir
    ensures |r| >= |name| && r[|r| - |name|..] == name
    ensures r == dir + name || r == dir + "\\" + name
    ensures r == dir + name <==> dir == "" || IsSeparator(dir[|dir| - 1])
  {
    if dir == "" then name
    else if IsSeparator(dir[|dir| - 1]) then dir + name
    else dir + "\\" + name
  }

  /** The characters `bool.TryParse` trims: ASCII white space and NUL. */
  predicate IsBlank(c: char)
  {
    c == ' ' || '\t' <= c <= '\r' || c == '\0'
  }

  function TrimStart(s: string): (r: string)
    ensures |r| <= |s|
    ensures r == s[|s| - |r|..]
    ensures r == "" || !IsBlank(r[0])
    ensures forall k :: 0 <= k < |s| - |r| ==> IsBlank(s[k])
  {
    if s != "" && IsBlank(s[0]) then TrimStart(s[1..]) else s
  }

  function TrimEnd(s: string): (r: string)
    ensures |r| <= |s|
    ensures r == s[..|r|]
    ensures r == "" || !IsBlank(r[|r| - 1])
    ensures forall k :: |r| <= k < |s| ==> IsBlank(s[k])
  {
    if s != "" && IsBlank(s[|s| - 1]) then TrimEnd(s[..|s| - 1]) else s
  }

  /** `bool.TryParse`: "true" or "false" in any letter case, surrounded by optional blanks. */
  function TryParseBool(s: string): (r: Option<bool>)
    ensures r == Some(true) <==> ToLower(TrimEnd(TrimStart(s))) == "true"
    ensures r == Some(false) <==> ToLower(TrimEnd(TrimStart(s))) == "false"
    ensures r == None <==> ToLower(TrimEnd(TrimStart(s))) !in {"true", "false"}
  {
    BoolWord(TrimEnd(TrimStart(s)))
  }

  /** The word `bool.TryParse` accepts once the blanks are trimmed. */
  function BoolWord(t: string): Option<bool>
  {
    var l := ToLower(t);
    if l == "true" then Some(true)
    else if l == "false" then Some(false)
    else None
  }

  /** Leading blanks are exactly what `TrimStart` removes. */
  lemma {:induction false} TrimStartBlanks(pre: string, w: string)
    requires forall k :: 0 <= k < |pre| ==> IsBlank(pre[k])
    requires w == "" || !IsBlank(w[0])
    ensures TrimStart(pre + w) == w
    decreases |pre|
  {
    if pre != [] {
      assert (pre + w)[1..] == pre[1..] + w;
      TrimStartBlanks(pre[1..], w);
    } else {
      assert pre + w == w;
    }
  }

  /** Trailing blanks are exactly what `TrimEnd` removes. */
  lemma {:induction false} TrimEndBlanks(w: string, post: string)
    requires forall k :: 0 <= k < |post| ==> IsBlank(post[k])
    requires w == "" || !IsBlank(w[|w| - 1])
    ensures TrimEnd(w + post) == w
    decreases |post|
  {
    if post != [] {
      assert (w + post)[..|w + post| - 1] == w + post[..|post| - 1];
      TrimEndBlanks(w, post[..|post| - 1]);
    } else {
      assert w + post == w;
    }
  }

  /** `bool.TryParse` ignores blanks around the word. */
  lemma BoolParseIgnoresBlanks(pre: string, w: string, post: string)
    requires forall k :: 0 <= k < |pre| ==> IsBlank(pre[k])
    requires forall k :: 0 <= k < |post| ==> IsBlank(post[k])
    requires w != "" && !IsBlank(w[0]) && !IsBlank(w[|w| - 1])
    ensures TryParseBool(pre + w + post) == TryParseBool(w)
  {
    assert pre + w + post == pre + (w + post);
    TrimStartBlanks(pre, w + post);
    TrimEndBlanks(w, post);
    assert TrimEnd(TrimStart(pre + w + post)) == w;
    assert TrimStart(w) == w && TrimEnd(w) == w;
  }

  /** Lower-casing commutes with trimming, since no blank is a letter. */
  lemma {:induction false} TrimStartLower(s: string)
    ensures TrimStart(ToLower(s)) == ToLower(TrimStart(s))
    decreases |s|
  {
    if s != "" {
      var l := ToLower(s);
      assert IsBlank(l[0]) <==> IsBlank(s[0]);
      if IsBlank(s[0]) {
        assert l[1..] == ToLower(s[1..]);
        TrimStartLower(s[1..]);
      } else {
        assert TrimStart(l) == l && TrimStart(s) == s;
      }
    }
  }

  lemma {:induction false} TrimEndLower(s: string)
    ensures TrimEnd(ToLower(s)) == ToLower(TrimEnd(s))
    decreases |s|
  {
    if s != "" {
      var l := ToLower(s);
      assert IsBlank(l[|s| - 1]) <==> IsBlank(s[|s| - 1]);
      if IsBlank(s[|s| - 1]) {
        assert l[..|s| - 1] == ToLower(s[..|s| - 1]);
        TrimEndLower(s[..|s| - 1]);
      } else {
        assert TrimEnd(l) == l && TrimEnd(s) == s;
      }
    }
  }

  /** `bool.TryParse` ignores letter case. */
  lemma BoolParseIgnoresCase(s: string)
    ensures TryParseBool(ToLower(s)) == TryParseBool(s)
  {
    var t := TrimEnd(TrimStart(s));
    TrimStartLower(s);
    TrimEndLower(TrimStart(s));
    assert TrimEnd(TrimStart(ToLower(s))) == ToLower(t);
    BoolWordLower(t);
  }

  lemma BoolWordLower(t: string)
    ensures BoolWord(ToLower(t)) == BoolWord(t)
  {
    LowerOfLower(t);
  }

  /** `bool.TryParse` reads "False" as false. */
  lemma BoolParseFalse()
    ensures TryParseBool("False") == Some(false)
  {
    assert TrimStart("False") == "False";
    assert TrimEnd("False") == "False";
  }

  /** `bool.TryParse` accepts no other word: "yes" is refused. */
  lemma BoolParseRefusesYes()
    ensures TryParseBool("yes") == None
  {
    assert TrimStart("yes") == "yes";
    assert TrimEnd("yes") == "yes";
    assert ToLower("yes")[0] == 'y';
  }

  /**
   * Ordinal (code point by code point) lexicographic order on strings: the
   * model's stand-in for the culture-sensitive default comparer, which orders
   * letter case and ignorable characters differently.
   */
  predicate LexLe(a: string, b: string)
    decreases |a|
  {
    a == "" || (b != "" && (a[0] < b[0] || (a[0] == b[0] && LexLe(a[1..], b[1..]))))
  }

  lemma {:induction false} LexLeTotal(a: string, b: string)
    ensures LexLe(a, b) || LexLe(b, a)
    decreases |a|
  {
    if a != "" && b != "" && a[0] == b[0] {
      LexLeTotal(a[1..], b[1..]);
    }
  }

  lemma {:induction false} LexLeTransitive(a: string, b: string, c: string)
    requires LexLe(a, b) && LexLe(b, c)
    ensures LexLe(a, c)
    decreases |a|
  {
    if a != "" && b != "" && c != "" && a[0] == b[0] && b[0] == c[0] {
      LexLeTransitive(a[1..], b[1..], c[1..]);
    }
  }

  lemma {:induction false} LexLeAntisymmetric(a: string, b: string)
    requires LexLe(a, b) && LexLe(b, a)
    ensures a == b
    decreases |a|
  {
    if a != "" {
      LexLeAntisymmetric(a[1..], b[1..]);
      assert a == [a[0]] + a[1..];
      assert b == [b[0]] + b[1..];
    }
  }
}
