/**
 Selection of the files of a zip archive for import: entries under the
 `__MACOSX/` folder and entries of unsupported extension are dropped, each
 remaining path is cleaned and stripped of a leading `zipName/`, where
 `zipName` is the archive's whole path minus its extension, and each entry
 that opens is filed under that short path.

 Reading the archive is outside the model: the archive is given as the
 result of opening it, each entry as its name and whether opening it
 succeeds. The extension filter and the path cleaner are supplied as
 functions.
 */
module ZipSource {
  import opened Wrappers

  // ---------------------------------------------------------------------------
  // String and path helpers
  // ---------------------------------------------------------------------------

  /** `s` starts with `prefix`. */
  predicate HasPrefix(s: string, prefix: string): (b: bool)
    ensures b ==> |prefix| <= |s| && prefix + s[|prefix|..] == s
  {
    |prefix| <= |s| && s[..|prefix|] == prefix
  }

  /** `s` ends with `suffix`. */
  predicate HasSuffix(s: string, suffix: string): (b: bool)
    ensures b ==> |suffix| <= |s| && s[..|s| - |suffix|] + suffix == s
  {
    |suffix| <= |s| && s[|s| - |suffix|..] == suffix
  }

  /** The two predicates compare character by character. */
  lemma AffixPointwise(s: string, affix: string)
    ensures HasPrefix(s, affix) <==> |affix| <= |s| && forall i :: 0 <= i < |affix| ==> s[i] == affix[i]
    ensures HasSuffix(s, affix) <==>
      |affix| <= |s| && forall i :: 0 <= i < |affix| ==> s[|s| - |affix| + i] == affix[i]
  {
    if |affix| <= |s| && forall i :: 0 <= i < |affix| ==> s[|s| - |affix| + i] == affix[i] {
      assert s[|s| - |affix|..] == affix;
    }
  }

  /** `s` without `prefix`, when it starts with it. */
  function TrimPrefix(s: string, prefix: string): (r: string)
    ensures HasPrefix(s, prefix) ==> prefix + r == s
    ensures !HasPrefix(s, prefix) ==> r == s
  {
    if HasPrefix(s, prefix) then s[|prefix|..] else s
  }

  /** `s` without `suffix`, when it ends with it. */
  function TrimSuffix(s: string, suffix: string): (r: string)
    ensures HasSuffix(s, suffix) ==> r + suffix == s
    ensures !HasSuffix(s, suffix) ==> r == s
  {
    if HasSuffix(s, suffix) then s[..|s| - |suffix|] else s
  }

  /** Position `j` of `path` lies in its last element: no separator follows it. */
  ghost predicate InLastElement(path: string, j: int)
    requires 0 <= j < |path|
  {
    forall k :: j < k < |path| ==> path[k] != '/'
  }

  /**
   The start of the extension of `path`, scanning down from position `i`:
   the first '.' met before a '/', or `|path|` when there is none.
   */
  function ExtStart(path: string, i: int): (s: int)
    requires -1 <= i < |path|
    ensures s <= i || s == |path|
    ensures 0 <= s <= |path|
    decreases i + 1
  {
    if i < 0 || path[i] == '/' then |path|
    else if path[i] == '.' then i
    else ExtStart(path, i - 1)
  }

  /** The extension of `path`: the suffix from the final '.' of its last element, or "". */
  function Ext(path: string): (r: string)
    ensures HasSuffix(path, r)
    ensures r != "" ==> r[0] == '.'
  {
    ExtStartSpec(path, |path| - 1);
    path[ExtStart(path, |path| - 1)..]
  }

  lemma {:induction false} ExtStartSpec(path: string, i: int)
    requires -1 <= i < |path|
    requires forall k :: i < k < |path| ==> path[k] != '.' && path[k] != '/'
    ensures var s := ExtStart(path, i);
      (s == |path| && forall j :: 0 <= j < |path| && InLastElement(path, j) ==> path[j] != '.')
      || (0 <= s <= i && path[s] == '.' && InLastElement(path, s)
          && forall k :: s < k < |path| ==> path[k] != '.')
    decreases i + 1
  {
    if i >= 0 && path[i] != '/' && path[i] != '.' {
      ExtStartSpec(path, i - 1);
    }
  }

  /**
   `Ext(path)` is a suffix of `path`. It is empty exactly when the last
   element has no '.'; otherwise it starts at the last '.' of the path and
   that '.' lies in the last element.
   */
  lemma ExtSpec(path: string)
    ensures HasSuffix(path, Ext(path))
    ensures Ext(path) == "" ==> forall j :: 0 <= j < |path| && InLastElement(path, j) ==> path[j] != '.'
    ensures Ext(path) != "" ==>
      var s := |path| - |Ext(path)|;
      path[s] == '.' && InLastElement(path, s) && forall k :: s < k < |path| ==> path[k] != '.'
  {
    ExtStartSpec(path, |path| - 1);
  }

  /**
   The archive's path without its extension: the whole of `importPath`
   (directories included), not its base name.
   */
  function ZipName(importPath: string): (r: string)
    ensures r + Ext(importPath) == importPath
  {
    ExtSpec(importPath);
    TrimSuffix(importPath, Ext(importPath))
  }

  // ---------------------------------------------------------------------------
  // The archive and the selection rules
  // ---------------------------------------------------------------------------

  /** An entry of the archive: its stored name and whether opening it succeeds. */
  datatype Entry = Entry(name: string, opensOk: bool)

  /** The reader opened on the entry at position `entry` of the archive. */
  datatype Reader = Reader(entry: nat)

  /** Why the archive itself could not be opened. */
  datatype OpenError = OpenError(message: string)

  /**
   What the selection depends on besides the entries: the archive's path
   without extension, the extensions asked for, the extension filter and
   the path cleaner.
   */
  datatype Rules = Rules(
    zipName: string,
    expectedExt: seq<string>,
    isSupportedExtension: (string, seq<string>) -> bool,
    clean: string -> string)

  /** An entry stored under the `__MACOSX/` folder that macOS adds to archives. */
  predicate MacOsxEntry(e: Entry): (b: bool)
    ensures b <==> 9 <= |e.name| && "__MACOSX/" + e.name[9..] == e.name
  {
    HasPrefix(e.name, "__MACOSX/")
  }

  /**
   The extension filter accepts the entry's extension: the empty string when
   the last element of its name has no `.`, otherwise the name from that
   element's last `.` on.
   */
  predicate SupportedEntry(e: Entry, rules: Rules): (b: bool)
    ensures (forall j :: 0 <= j < |e.name| && InLastElement(e.name, j) ==> e.name[j] != '.') ==>
      (b <==> rules.isSupportedExtension("", rules.expectedExt))
    ensures forall j ::
      (0 <= j < |e.name| && e.name[j] == '.' && InLastElement(e.name, j)
       && forall k :: j < k < |e.name| ==> e.name[k] != '.') ==>
      (b <==> rules.isSupportedExtension(e.name[j..], rules.expectedExt))
  {
    ExtSpec(e.name);
    rules.isSupportedExtension(Ext(e.name), rules.expectedExt)
  }

  /** An entry that ends up in the result: each of the three guards rejects on its own. */
  predicate Accepted(e: Entry, rules: Rules): (b: bool)
    ensures MacOsxEntry(e) ==> !b
    ensures !SupportedEntry(e, rules) ==> !b
    ensures !e.opensOk ==> !b
    ensures !MacOsxEntry(e) && SupportedEntry(e, rules) && e.opensOk ==> b
  {
    !MacOsxEntry(e) && SupportedEntry(e, rules) && e.opensOk
  }

  /** The key an entry is filed under: its cleaned name without a leading `zipName/`. */
  function ShortPath(name: string, rules: Rules): (r: string)
    ensures HasPrefix(rules.clean(name), rules.zipName + "/") ==> rules.zipName + "/" + r == rules.clean(name)
    ensures !HasPrefix(rules.clean(name), rules.zipName + "/") ==> r == rules.clean(name)
  {
    TrimPrefix(rules.clean(name), rules.zipName + "/")
  }

  /**
   The files of `es`, each accepted entry filed under its short path, later
   ones replacing earlier; two accepted entries with one short path leave one
   key, so there are at most as many keys as entries.
   */
  function Selected(es: seq<Entry>, rules: Rules): (r: map<string, Reader>)
    ensures |r| <= |es|
    decreases |es|
  {
    if es == [] then map[]
    else
      var n := |es| - 1;
      var m := Selected(es[..n], rules);
      if Accepted(es[n], rules) then m[ShortPath(es[n].name, rules) := Reader(n)] else m
  }

  /** No accepted entry after position `i` has the short path of `es[i]`. */
  ghost predicate LastWithPath(es: seq<Entry>, i: int, rules: Rules)
    requires 0 <= i < |es|
  {
    forall j :: i < j < |es| && Accepted(es[j], rules) ==> ShortPath(es[j].name, rules) != ShortPath(es[i].name, rules)
  }

  // ---------------------------------------------------------------------------
  // Lemmas about the selection
  // ---------------------------------------------------------------------------

  /** Taking one more entry into account files it, if accepted, over what came before. */
  lemma SelectedStep(es: seq<Entry>, i: int, rules: Rules)
    requires 0 <= i < |es|
    ensures Selected(es[..i + 1], rules)
         == if Accepted(es[i], rules) then Selected(es[..i], rules)[ShortPath(es[i].name, rules) := Reader(i)]
            else Selected(es[..i], rules)
  {
    assert es[..i + 1][..i] == es[..i];
  }

  /**
   Every key of the result comes from an accepted entry: one not under
   `__MACOSX/`, of supported extension and that opens; the key is that
   entry's short path.
   */
  lemma {:induction false} SelectedSound(es: seq<Entry>, rules: Rules)
    ensures forall k :: k in Selected(es, rules) ==>
      var i := Selected(es, rules)[k].entry;
      i < |es| && Accepted(es[i], rules) && ShortPath(es[i].name, rules) == k
    decreases |es|
  {
    if es != [] {
      var n := |es| - 1;
      SelectedSound(es[..n], rules);
      SelectedStep(es, n, rules);
      assert es[..n + 1] == es;
      forall k | k in Selected(es, rules)
        ensures var i := Selected(es, rules)[k].entry;
          i < |es| && Accepted(es[i], rules) && ShortPath(es[i].name, rules) == k
      {
        if !(Accepted(es[n], rules) && k == ShortPath(es[n].name, rules)) {
          var i := Selected(es[..n], rules)[k].entry;
          assert es[..n][i] == es[i];
        }
      }
    }
  }

  lemma LastWithPathExtend(es: seq<Entry>, i: int, rules: Rules)
    requires 0 <= i < |es| - 1
    requires LastWithPath(es[..|es| - 1], i, rules)
    requires Accepted(es[|es| - 1], rules) ==> ShortPath(es[|es| - 1].name, rules) != ShortPath(es[i].name, rules)
    ensures LastWithPath(es, i, rules)
  {
    var init := es[..|es| - 1];
    assert init[i] == es[i];
    forall j | i < j < |es| - 1 ensures init[j] == es[j] { }
  }

  /**
   The reader filed under a key is that of the LAST accepted entry with that
   short path: no later accepted entry has the same short path.
   */
  lemma {:induction false} SelectedLastWins(es: seq<Entry>, rules: Rules)
    ensures forall k :: k in Selected(es, rules) ==>
      Selected(es, rules)[k].entry < |es| && LastWithPath(es, Selected(es, rules)[k].entry, rules)
    decreases |es|
  {
    if es != [] {
      var n := |es| - 1;
      var init := es[..n];
      SelectedLastWins(init, rules);
      SelectedSound(init, rules);
      SelectedStep(es, n, rules);
      assert es[..n + 1] == es;
      forall k | k in Selected(es, rules)
        ensures Selected(es, rules)[k].entry < |es| && LastWithPath(es, Selected(es, rules)[k].entry, rules)
      {
        if !(Accepted(es[n], rules) && k == ShortPath(es[n].name, rules)) {
          var i := Selected(init, rules)[k].entry;
          LastWithPathExtend(es, i, rules);
        }
      }
    }
  }

  /**
   Every accepted entry is filed under its short path: a skipped entry does
   not stop later ones, and the reader kept is that of the entry itself or
   of a later one.
   */
  lemma {:induction false} SelectedComplete(es: seq<Entry>, rules: Rules)
    ensures forall i :: 0 <= i < |es| && Accepted(es[i], rules) ==>
      ShortPath(es[i].name, rules) in Selected(es, rules)
      && Selected(es, rules)[ShortPath(es[i].name, rules)].entry >= i
  {
    forall i | 0 <= i < |es| && Accepted(es[i], rules)
      ensures ShortPath(es[i].name, rules) in Selected(es, rules)
           && Selected(es, rules)[ShortPath(es[i].name, rules)].entry >= i
    {
      SelectedCompleteAt(es, i, rules);
    }
  }

  lemma {:induction false} SelectedCompleteAt(es: seq<Entry>, i: int, rules: Rules)
    requires 0 <= i < |es| && Accepted(es[i], rules)
    ensures ShortPath(es[i].name, rules) in Selected(es, rules)
    ensures Selected(es, rules)[ShortPath(es[i].name, rules)].entry >= i
    decreases |es|
  {
    var n := |es| - 1;
    SelectedStep(es, n, rules);
    assert es[..n + 1] == es;
    var prev, cur := Selected(es[..n], rules), Selected(es, rules);
    if Accepted(es[n], rules) {
      var kn := ShortPath(es[n].name, rules);
      assert cur == prev[kn := Reader(n)];
      if i < n && ShortPath(es[i].name, rules) != kn {
        assert es[..n][i] == es[i];
        SelectedCompleteAt(es[..n], i, rules);
      }
    } else {
      assert cur == prev;
      assert i < n;
      assert es[..n][i] == es[i];
      SelectedCompleteAt(es[..n], i, rules);
    }
  }

  /**
   The files of the archive at `importPath` to import, by short path; or the
   error when the archive cannot be opened.
   */
  method GetFileReaders(
    importPath: string,
    expectedExt: seq<string>,
    archive: Result<seq<Entry>, OpenError>,
    isSupportedExtension: (string, seq<string>) -> bool,
    clean: string -> string)
    returns (r: Result<map<string, Reader>, OpenError>)
    ensures archive.Err? ==> r == Err(archive.error)
    ensures archive.Ok? ==>
      r == Ok(Selected(archive.value, Rules(ZipName(importPath), expectedExt, isSupportedExtension, clean)))
  {
    if archive.Err? {
      return Err(archive.error);
    }
    var entries := archive.value;
    var files: map<string, Reader> := map[];
    var zipName := TrimSuffix(importPath, Ext(importPath));
    ghost var rules := Rules(zipName, expectedExt, isSupportedExtension, clean);
    for i := 0 to |entries|
      invariant files == Selected(entries[..i], rules)
    {
      var f := entries[i];
      SelectedStep(entries, i, rules);
      if HasPrefix(f.name, "__MACOSX/") {
        continue;
      }
      var ext := Ext(f.name);
      if !isSupportedExtension(ext, expectedExt) {
        continue;
      }
      var shortPath := clean(f.name);
      shortPath := TrimPrefix(shortPath, zipName + "/");
      if !f.opensOk {
        continue;
      }
      files := files[shortPath := Reader(i)];
    }
    assert entries[..|entries|] == entries;
    return Ok(files);
  }
}
