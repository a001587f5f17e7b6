/**
 * File collection: for each input path in order, a regular file that passes
 * the extension allow-list, or the allow-listed files of a directory sorted
 * by name, modification time or creation time; a missing path contributes
 * nothing.
 */
module Collector {
  import opened Text
  import opened Sequences

  /** How the files found in one directory are ordered. */
  datatype SortOrder = FileName | ModifiedTime | CreationTime

  /** A file as directory enumeration reports it: its full path and its two timestamps (in ticks). */
  datatype FileEntry = FileEntry(path: string, modified: int, created: int)

  /** What a path names: a regular file, or a directory with its files in enumeration order. */
  datatype Node = File | Directory(files: seq<FileEntry>)

  /** The file system as the program sees it; a path that is not a key does not exist. */
  type FileSystem = map<string, Node>

  /** The extensions used when no file types were given. */
  const DefaultExtensions: seq<string> := [".png", ".jpg", ".jpeg", ".bmp", ".gif", ".tiff"]

  /** The allow-list: the given file types, or the default set when none were given. */
  function AllowList(fileTypes: seq<string>): (r: seq<string>)
    ensures |fileTypes| > 0 ==> r == fileTypes
    ensures |fileTypes| == 0 ==> r == [".png", ".jpg", ".jpeg", ".bmp", ".gif", ".tiff"]
  {
    if |fileTypes| > 0 then fileTypes else DefaultExtensions
  }

  /** A path passes the filter when its lower-cased extension is on the allow-list. */
  predicate Allowed(valid: seq<string>, path: string)
  {
    ToLower(Extension(path)) in valid
  }

  /**
   * The filter in terms of the path itself: a path ending in an extension
   * passes exactly when that extension, lower-cased, is allowed; a path
   * without one passes only when the empty string is on the list.
   */
  lemma AllowedByExtension(valid: seq<string>, path: string)
    ensures forall d :: ExtensionDot(path, d) ==> (Allowed(valid, path) <==> ToLower(path[d..]) in valid)
    ensures (forall d :: !ExtensionDot(path, d)) ==> (Allowed(valid, path) <==> "" in valid)
  {
  }

  /** The LINQ `Where` over a directory listing: the allow-listed entries, in enumeration order. */
  function FilterAllowed(valid: seq<string>, files: seq<FileEntry>): (r: seq<FileEntry>)
    ensures forall e :: e in r ==> e in files && Allowed(valid, e.path)
    ensures forall e :: e in files && Allowed(valid, e.path) ==> e in r
    ensures multiset(r) <= multiset(files)
    ensures |r| <= |files|
  {
    if files == [] then []
    else
      assert files == [files[0]] + files[1..];
      (if Allowed(valid, files[0].path) then [files[0]] else []) + FilterAllowed(valid, files[1..])
  }

  /** Filtering keeps enumeration order: the filter of a split listing is the two filters joined. */
  lemma {:induction false} FilterAllowedAppend(valid: seq<string>, a: seq<FileEntry>, b: seq<FileEntry>)
    ensures FilterAllowed(valid, a + b) == FilterAllowed(valid, a) + FilterAllowed(valid, b)
    decreases |a|
  {
    if a == [] {
      assert a + b == b;
    } else {
      var head := if Allowed(valid, a[0].path) then [a[0]] else [];
      calc {
        FilterAllowed(valid, a + b);
        { assert (a + b)[0] == a[0];
          assert (a + b)[1..] == a[1..] + b; }
        head + FilterAllowed(valid, a[1..] + b);
        { FilterAllowedAppend(valid, a[1..], b); }
        head + (FilterAllowed(valid, a[1..]) + FilterAllowed(valid, b));
        { ConcatAssoc(head, FilterAllowed(valid, a[1..]), FilterAllowed(valid, b)); }
        head + FilterAllowed(valid, a[1..]) + FilterAllowed(valid, b);
      }
    }
  }

  // ----- Sorting -----

  /** The value a file is sorted by. */
  datatype SortKey = NameKey(name: string) | TimeKey(ticks: int)

  function KeyOf(order: SortOrder, e: FileEntry): SortKey
  {
    match order
    case FileName => NameKey(e.path)
    case ModifiedTime => TimeKey(e.modified)
    case CreationTime => TimeKey(e.created)
  }

  /**
   * The comparison `OrderBy` uses: numeric order on times; on names, ordinal
   * (code point) order, standing in for the culture-sensitive default string
   * comparer.
   */
  predicate KeyLe(a: SortKey, b: SortKey)
  {
    match (a, b)
    case (NameKey(x), NameKey(y)) => LexLe(x, y)
    case (TimeKey(x), TimeKey(y)) => x <= y
    case (NameKey(_), TimeKey(_)) => true
    case (TimeKey(_), NameKey(_)) => false
  }

  lemma KeyLeTotal(a: SortKey, b: SortKey)
    ensures KeyLe(a, b) || KeyLe(b, a)
  {
    if a.NameKey? && b.NameKey? { LexLeTotal(a.name, b.name); }
  }

  lemma KeyLeTransitive(a: SortKey, b: SortKey, c: SortKey)
    requires KeyLe(a, b) && KeyLe(b, c)
    ensures KeyLe(a, c)
  {
    if a.NameKey? && b.NameKey? && c.NameKey? { LexLeTransitive(a.name, b.name, c.name); }
  }

  /** Each order compares the field it names: the full path, the last-write time or the creation time. */
  lemma KeyOfCompares(order: SortOrder, a: FileEntry, b: FileEntry)
    ensures order == FileName ==> (KeyLe(KeyOf(order, a), KeyOf(order, b)) <==> LexLe(a.path, b.path))
    ensures order == ModifiedTime ==> (KeyLe(KeyOf(order, a), KeyOf(order, b)) <==> a.modified <= b.modified)
    ensures order == CreationTime ==> (KeyLe(KeyOf(order, a), KeyOf(order, b)) <==> a.created <= b.created)
  {
  }

  /** Keys never decrease along `s`. */
  predicate SortedBy(order: SortOrder, s: seq<FileEntry>)
  {
    forall i, j :: 0 <= i < j < |s| ==> KeyLe(KeyOf(order, s[i]), KeyOf(order, s[j]))
  }

  /** The entries of `s` whose key is `key`, in their order in `s`. */
  function WithKey(order: SortOrder, s: seq<FileEntry>, key: SortKey): seq<FileEntry>
  {
    if s == [] then []
    else (if KeyOf(order, s[0]) == key then [s[0]] else []) + WithKey(order, s[1..], key)
  }

  lemma {:induction false} WithKeyNone(order: SortOrder, s: seq<FileEntry>, key: SortKey)
    requires forall j :: 0 <= j < |s| ==> KeyOf(order, s[j]) != key
    ensures WithKey(order, s, key) == []
  {
    if s != [] { WithKeyNone(order, s[1..], key); }
  }

  /** Inserts `e` after every entry whose key is at most its own: one step of a stable insertion sort. */
  function Insert(order: SortOrder, s: seq<FileEntry>, e: FileEntry): (r: seq<FileEntry>)
    requires SortedBy(order, s)
    ensures SortedBy(order, r)
    ensures multiset(r) == multiset(s) + multiset{e}
  {
    if s == [] then [e]
    else if KeyLe(KeyOf(order, s[0]), KeyOf(order, e)) then
      var rest := Insert(order, s[1..], e);
      assert multiset(s) == multiset{s[0]} + multiset(s[1..]) by { assert s == [s[0]] + s[1..]; }
      assert forall x :: x in rest ==> x == e || x in s[1..] by {
        forall x | x in rest ensures x == e || x in s[1..] {
          assert x in multiset(rest);
        }
      }
      InsertHeadSorted(order, s, e, rest);
      [s[0]] + rest
    else
      KeyLeTotal(KeyOf(order, s[0]), KeyOf(order, e));
      ConsSorted(order, e, s);
      [e] + s
  }

  lemma ConsSorted(order: SortOrder, e: FileEntry, s: seq<FileEntry>)
    requires SortedBy(order, s)
    requires s != [] ==> KeyLe(KeyOf(order, e), KeyOf(order, s[0]))
    ensures SortedBy(order, [e] + s)
  {
    var r := [e] + s;
    forall i, j | 0 <= i < j < |r|
      ensures KeyLe(KeyOf(order, r[i]), KeyOf(order, r[j]))
    {
      if i == 0 && j > 1 {
        KeyLeTransitive(KeyOf(order, e), KeyOf(order, s[0]), KeyOf(order, s[j - 1]));
      }
    }
  }

  lemma InsertHeadSorted(order: SortOrder, s: seq<FileEntry>, e: FileEntry, rest: seq<FileEntry>)
    requires s != [] && SortedBy(order, s) && SortedBy(order, rest)
    requires KeyLe(KeyOf(order, s[0]), KeyOf(order, e))
    requires forall x :: x in rest ==> x == e || x in s[1..]
    ensures SortedBy(order, [s[0]] + rest)
  {
    var r := [s[0]] + rest;
    forall i, j | 0 <= i < j < |r|
      ensures KeyLe(KeyOf(order, r[i]), KeyOf(order, r[j]))
    {
      if i == 0 {
        assert r[j] in rest;
        if r[j] != e {
          var k :| 0 <= k < |s[1..]| && s[1..][k] == r[j];
          assert s[k + 1] == r[j];
        }
      }
    }
  }

  lemma WithKeyCons(order: SortOrder, x: FileEntry, t: seq<FileEntry>, key: SortKey)
    ensures WithKey(order, [x] + t, key) == (if KeyOf(order, x) == key then [x] else []) + WithKey(order, t, key)
  {
    assert ([x] + t)[1..] == t;
  }

  /** Insertion keeps equal-keyed entries in arrival order: `e` comes after every earlier entry with its key. */
  lemma {:induction false} InsertStable(order: SortOrder, s: seq<FileEntry>, e: FileEntry, key: SortKey)
    requires SortedBy(order, s)
    ensures WithKey(order, Insert(order, s, e), key) ==
            WithKey(order, s, key) + (if KeyOf(order, e) == key then [e] else [])
    decreases |s|
  {
    if s == [] {
      WithKeyCons(order, e, [], key);
    } else if KeyLe(KeyOf(order, s[0]), KeyOf(order, e)) {
      InsertStable(order, s[1..], e, key);
      InsertAfterHead(order, s, e, key);
    } else {
      InsertBeforeLarger(order, s, e, key);
    }
  }

  /** When `e` goes after the head, the head's key entry (if any) precedes everything the tail contributes. */
  lemma InsertAfterHead(order: SortOrder, s: seq<FileEntry>, e: FileEntry, key: SortKey)
    requires SortedBy(order, s) && s != []
    requires KeyLe(KeyOf(order, s[0]), KeyOf(order, e))
    requires WithKey(order, Insert(order, s[1..], e), key) ==
             WithKey(order, s[1..], key) + (if KeyOf(order, e) == key then [e] else [])
    ensures WithKey(order, Insert(order, s, e), key) ==
            WithKey(order, s, key) + (if KeyOf(order, e) == key then [e] else [])
  {
    var head := if KeyOf(order, s[0]) == key then [s[0]] else [];
    var last := if KeyOf(order, e) == key then [e] else [];
    var tail := Insert(order, s[1..], e);
    calc {
      WithKey(order, Insert(order, s, e), key);
      { assert Insert(order, s, e) == [s[0]] + tail;
        WithKeyCons(order, s[0], tail, key); }
      head + WithKey(order, tail, key);
      head + (WithKey(order, s[1..], key) + last);
      { ConcatAssoc(head, WithKey(order, s[1..], key), last); }
      head + WithKey(order, s[1..], key) + last;
      { assert s == [s[0]] + s[1..];
        WithKeyCons(order, s[0], s[1..], key); }
      WithKey(order, s, key) + last;
    }
  }

  /** When `e` goes in front, no entry of `s` shares its key, so `e` is still last among its equals. */
  lemma InsertBeforeLarger(order: SortOrder, s: seq<FileEntry>, e: FileEntry, key: SortKey)
    requires SortedBy(order, s) && s != []
    requires !KeyLe(KeyOf(order, s[0]), KeyOf(order, e))
    ensures WithKey(order, [e] + s, key) == WithKey(order, s, key) + (if KeyOf(order, e) == key then [e] else [])
  {
    WithKeyCons(order, e, s, key);
    if KeyOf(order, e) == key {
      forall j | 0 <= j < |s| ensures KeyOf(order, s[j]) != key {
        assert KeyLe(KeyOf(order, s[0]), KeyOf(order, s[j])) by {
          if j > 0 { assert 0 < j; } else { KeyLeTotal(KeyOf(order, s[0]), KeyOf(order, s[0])); }
        }
      }
      WithKeyNone(order, s, key);
    }
  }

  /**
   * The model of LINQ `OrderBy`: a stable sort. Its result is a permutation of
   * the input whose keys never decrease.
   */
  function SortEntries(order: SortOrder, files: seq<FileEntry>): (r: seq<FileEntry>)
    ensures SortedBy(order, r)
    ensures multiset(r) == multiset(files)
    decreases |files|
  {
    if files == [] then []
    else
      var init := files[..|files| - 1];
      assert files == init + [files[|files| - 1]];
      Insert(order, SortEntries(order, init), files[|files| - 1])
  }

  /** Entries with equal keys keep their enumeration order. */
  lemma {:induction false} SortEntriesStable(order: SortOrder, files: seq<FileEntry>, key: SortKey)
    ensures WithKey(order, SortEntries(order, files), key) == WithKey(order, files, key)
    decreases |files|
  {
    if files != [] {
      var init, last := files[..|files| - 1], files[|files| - 1];
      var tail := if KeyOf(order, last) == key then [last] else [];
      calc {
        WithKey(order, SortEntries(order, files), key);
        WithKey(order, Insert(order, SortEntries(order, init), last), key);
        { InsertStable(order, SortEntries(order, init), last, key); }
        WithKey(order, SortEntries(order, init), key) + tail;
        { SortEntriesStable(order, init, key); }
        WithKey(order, init, key) + tail;
        { WithKeyCons(order, last, [], key);
          assert [last] + [] == [last]; }
        WithKey(order, init, key) + WithKey(order, [last], key);
        { WithKeyAppend(order, init, [last], key);
          assert files == init + [last]; }
        WithKey(order, files, key);
      }
    }
  }

  lemma {:induction false} WithKeyAppend(order: SortOrder, a: seq<FileEntry>, b: seq<FileEntry>, key: SortKey)
    ensures WithKey(order, a + b, key) == WithKey(order, a, key) + WithKey(order, b, key)
    decreases |a|
  {
    if a == [] {
      assert a + b == b;
    } else {
      var head := if KeyOf(order, a[0]) == key then [a[0]] else [];
      assert WithKey(order, a + b, key) == head + WithKey(order, a[1..] + b, key) by {
        assert a + b == [a[0]] + (a[1..] + b);
        WithKeyCons(order, a[0], a[1..] + b, key);
      }
      assert WithKey(order, a, key) == head + WithKey(order, a[1..], key) by {
        assert a == [a[0]] + a[1..];
        WithKeyCons(order, a[0], a[1..], key);
      }
      WithKeyAppend(order, a[1..], b, key);
      ConcatAssoc(head, WithKey(order, a[1..], key), WithKey(order, b, key));
    }
  }

  // ----- Collection -----

  /** The paths of a list of entries. */
  function Paths(files: seq<FileEntry>): seq<string>
  {
    seq(|files|, k requires 0 <= k < |files| => files[k].path)
  }

  /** What one input path contributes to the file list. */
  function Contribution(fs: FileSystem, valid: seq<string>, order: SortOrder, input: string): (r: seq<string>)
    ensures input !in fs ==> r == []
    ensures input in fs && fs[input].File? ==> (r == [input] <==> Allowed(valid, input)) && (r == [] <==> !Allowed(valid, input))
    ensures input in fs && fs[input].Directory? ==> |r| <= |fs[input].files|
  {
    if input in fs then
      match fs[input]
      case File => if Allowed(valid, input) then [input] else []
      case Directory(files) =>
        var sorted := SortEntries(order, FilterAllowed(valid, files));
        assert |multiset(sorted)| == |multiset(FilterAllowed(valid, files))|;
        Paths(sorted)
    else []
  }

  /** The file list for a list of inputs: their contributions, concatenated in input order. */
  function Collected(fs: FileSystem, valid: seq<string>, order: SortOrder, inputs: seq<string>): seq<string>
    decreases |inputs|
  {
    if inputs == [] then []
    else Collected(fs, valid, order, inputs[..|inputs| - 1]) + Contribution(fs, valid, order, inputs[|inputs| - 1])
  }

  /** `CollectImageFiles`: walks the inputs once, appending each one's contribution. */
  method CollectImageFiles(fs: FileSystem, inputs: seq<string>, fileTypes: seq<string>, sortOrder: SortOrder)
    returns (imageFiles: seq<string>)
    ensures imageFiles == Collected(fs, AllowList(fileTypes), sortOrder, inputs)
  {
    imageFiles := [];
    var validExtensions := if |fileTypes| > 0 then fileTypes else DefaultExtensions;
    for i := 0 to |inputs|
      invariant imageFiles == Collected(fs, validExtensions, sortOrder, inputs[..i])
    {
      var input := inputs[i];
      ghost var before := imageFiles;
      if input in fs && fs[input].File? {
        var extension := ToLower(Extension(input));
        if extension in validExtensions {
          imageFiles := imageFiles + [input];
        }
      } else if input in fs && fs[input].Directory? {
        var files := FilterAllowed(validExtensions, fs[input].files);
        var sortedFiles := SortEntries(sortOrder, files);
        imageFiles := imageFiles + Paths(sortedFiles);
      }
      assert imageFiles == before + Contribution(fs, validExtensions, sortOrder, input);
      assert Collected(fs, validExtensions, sortOrder, inputs[..i + 1]) ==
             before + Contribution(fs, validExtensions, sortOrder, input) by {
        assert inputs[..i + 1][..i] == inputs[..i];
      }
    }
    assert inputs[..|inputs|] == inputs;
  }

  // ----- Properties of the collected list -----

  /** The list is built input by input: no global re-sorting across inputs. */
  lemma CollectedSnoc(fs: FileSystem, valid: seq<string>, order: SortOrder, xs: seq<string>, x: string)
    ensures Collected(fs, valid, order, xs + [x]) == Collected(fs, valid, order, xs) + Contribution(fs, valid, order, x)
  {
    InitOfSnoc(xs, x);
  }

  lemma {:induction false} CollectedAppend(fs: FileSystem, valid: seq<string>, order: SortOrder, a: seq<string>, b: seq<string>)
    ensures Collected(fs, valid, order, a + b) == Collected(fs, valid, order, a) + Collected(fs, valid, order, b)
    decreases |b|
  {
    if b == [] {
      assert a + b == a;
    } else {
      var b', x := b[..|b| - 1], b[|b| - 1];
      assert b == b' + [x];
      assert a + b == (a + b') + [x];
      CollectedAppend(fs, valid, order, a, b');
      CollectedSnoc(fs, valid, order, a + b', x);
      CollectedSnoc(fs, valid, order, b', x);
      ConcatAssoc(Collected(fs, valid, order, a), Collected(fs, valid, order, b'), Contribution(fs, valid, order, x));
    }
  }

  /** A path that does not exist contributes nothing, wherever it stands among the inputs. */
  lemma MissingInputIgnored(fs: FileSystem, valid: seq<string>, order: SortOrder, a: seq<string>, missing: string, b: seq<string>)
    requires missing !in fs
    ensures Collected(fs, valid, order, a + [missing] + b) == Collected(fs, valid, order, a + b)
  {
    CollectedAppend(fs, valid, order, a + [missing], b);
    CollectedAppend(fs, valid, order, a, [missing]);
    CollectedAppend(fs, valid, order, a, b);
    assert Collected(fs, valid, order, [missing]) == Collected(fs, valid, order, []) + [];
  }

  /** A regular-file input appears at its place in the list exactly when its extension passes the filter. */
  lemma FileInputKept(fs: FileSystem, valid: seq<string>, order: SortOrder, a: seq<string>, file: string, b: seq<string>)
    requires file in fs && fs[file].File?
    ensures Collected(fs, valid, order, a + [file] + b) ==
            Collected(fs, valid, order, a) + (if Allowed(valid, file) then [file] else []) + Collected(fs, valid, order, b)
  {
    CollectedAppend(fs, valid, order, a + [file], b);
    CollectedSnoc(fs, valid, order, a, file);
  }

  /** A directory contributes its allow-listed files, each once, ordered by the sort key, ties in enumeration order. */
  lemma DirectoryContribution(fs: FileSystem, valid: seq<string>, order: SortOrder, dir: string)
    requires dir in fs && fs[dir].Directory?
    ensures var sorted := SortEntries(order, FilterAllowed(valid, fs[dir].files));
            && Contribution(fs, valid, order, dir) == Paths(sorted)
            && multiset(sorted) == multiset(FilterAllowed(valid, fs[dir].files))
            && SortedBy(order, sorted)
            && forall key :: WithKey(order, sorted, key) == WithKey(order, FilterAllowed(valid, fs[dir].files), key)
  {
    var filtered := FilterAllowed(valid, fs[dir].files);
    forall key ensures WithKey(order, SortEntries(order, filtered), key) == WithKey(order, filtered, key) {
      SortEntriesStable(order, filtered, key);
    }
  }

  /** Every path in one input's contribution passes the extension filter. */
  lemma ContributionAllowed(fs: FileSystem, valid: seq<string>, order: SortOrder, input: string)
    ensures forall p :: p in Contribution(fs, valid, order, input) ==> Allowed(valid, p)
  {
    if input in fs && fs[input].Directory? {
      var filtered := FilterAllowed(valid, fs[input].files);
      var sorted := SortEntries(order, filtered);
      assert forall e :: e in sorted ==> Allowed(valid, e.path) by {
        forall e | e in sorted ensures Allowed(valid, e.path) {
          assert e in multiset(sorted);
          assert e in multiset(filtered);
        }
      }
      PathsAllowed(valid, sorted);
    }
  }

  lemma PathsAllowed(valid: seq<string>, s: seq<FileEntry>)
    requires forall e :: e in s ==> Allowed(valid, e.path)
    ensures forall p :: p in Paths(s) ==> Allowed(valid, p)
  {
    forall p | p in Paths(s) ensures Allowed(valid, p) {
      var k :| 0 <= k < |s| && s[k].path == p;
      assert s[k] in s;
    }
  }

  /** Every collected path's lower-cased extension is on the allow-list. */
  lemma {:induction false} CollectedAllowed(fs: FileSystem, valid: seq<string>, order: SortOrder, inputs: seq<string>)
    ensures forall p :: p in Collected(fs, valid, order, inputs) ==> Allowed(valid, p)
    decreases |inputs|
  {
    if inputs != [] {
      CollectedAllowed(fs, valid, order, inputs[..|inputs| - 1]);
      ContributionAllowed(fs, valid, order, inputs[|inputs| - 1]);
    }
  }
}
