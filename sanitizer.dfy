/**
 * The interface sanitizer (sanitizer.py, `sanitize_interface_files`): it
 * collects the stems whose ROS-convention name differs into a rename map,
 * rewrites every field line of every interface file of one extension
 * (`float` becomes `float32`, a message type takes its corrected name),
 * writes a file back only when one of its lines changed, and finally renames
 * the files of the map whose old file exists.
 */
module Sanitizer {
  import opened Text
  import opened Utils

  // ---------------------------------------------------------------------------
  // rename_map: a Python dict keeps insertion order and updates a present key
  // in place, so it is a sequence of (key, value) pairs searched front to back.

  type Dict = seq<(string, string)>

  /** `d.get(k)`. */
  function Get(d: Dict, k: string): (r: Option<string>)
    ensures r.Some? ==> (k, r.value) in d
    ensures r.None? ==> forall i :: 0 <= i < |d| ==> d[i].0 != k
  {
    if d == [] then None else if d[0].0 == k then Some(d[0].1) else Get(d[1..], k)
  }

  /** `d[k] = v`. */
  function Put(d: Dict, k: string, v: string): (r: Dict)
    ensures Get(r, k) == Some(v)
    ensures forall k' :: k' != k ==> Get(r, k') == Get(d, k')
  {
    if d == [] then [(k, v)]
    else if d[0].0 == k then [(k, v)] + d[1..]
    else [d[0]] + Put(d[1..], k, v)
  }

  /** The entry one globbed stem adds: its (original, corrected) names when they differ. */
  function RenameEntry(stem: string): Option<(string, string)>
  {
    var (original, corrected) := RemapFilename(stem);
    if original != corrected then Some((original, corrected)) else None
  }

  /** The entries the globbed stems add, in glob order. */
  function Entries(stems: seq<string>): (es: seq<Option<(string, string)>>)
    ensures |es| == |stems|
    ensures forall i :: 0 <= i < |stems| ==> es[i] == RenameEntry(stems[i])
  {
    seq(|stems|, i requires 0 <= i < |stems| => RenameEntry(stems[i]))
  }

  /** The dict the entries build, each one stored in turn. */
  function MapOf(es: seq<Option<(string, string)>>): Dict
  {
    if es == [] then []
    else
      var d := MapOf(DropLast(es));
      var e := es[|es| - 1];
      if e.Some? then Put(d, e.value.0, e.value.1) else d
  }

  /** `rename_map` after the first loop over the globbed stems. */
  function RenameMapOf(stems: seq<string>): Dict
  {
    MapOf(Entries(stems))
  }

  /** The first loop of `sanitize_interface_files`. */
  method BuildRenameMap(stems: seq<string>) returns (renames: Dict)
    ensures renames == RenameMapOf(stems)
  {
    ghost var es := Entries(stems);
    renames := [];
    for i := 0 to |stems|
      invariant renames == MapOf(es[..i])
    {
      assert DropLast(es[..i + 1]) == es[..i];
      assert es[..i + 1][i] == RenameEntry(stems[i]);
      var (original, corrected) := RemapFilename(stems[i]);
      if original != corrected {
        renames := Put(renames, original, corrected);
      }
    }
    assert es[..|stems|] == es;
  }

  predicate Keyed(e: Option<(string, string)>, k: string)
  {
    e.Some? && e.value.0 == k
  }

  /** Entry `i` is the last entry with key `k`, and it maps `k` to `v`. */
  ghost predicate LastEntry(es: seq<Option<(string, string)>>, k: string, v: string)
  {
    exists i :: 0 <= i < |es| && es[i] == Some((k, v)) && forall j :: i < j < |es| ==> !Keyed(es[j], k)
  }

  /**
   * A name is a key of the dict exactly when some entry has it as key, and
   * its value is the one of the last such entry.
   */
  lemma {:induction false} MapOfExact(es: seq<Option<(string, string)>>, k: string)
    ensures Get(MapOf(es), k).Some? <==> exists i :: 0 <= i < |es| && Keyed(es[i], k)
    ensures Get(MapOf(es), k).Some? ==> LastEntry(es, k, Get(MapOf(es), k).value)
    decreases |es|
  {
    if es != [] {
      var init := DropLast(es);
      var n := |es| - 1;
      MapOfExact(init, k);
      var g := Get(MapOf(es), k);
      if Keyed(es[n], k) {
        assert es[n] == Some((k, g.value));
      } else {
        assert g == Get(MapOf(init), k);
        if g.Some? {
          var i :| 0 <= i < |init| && init[i] == Some((k, g.value)) && forall j :: i < j < |init| ==> !Keyed(init[j], k);
          assert es[i] == init[i];
          forall j | i < j < |es| ensures !Keyed(es[j], k) {
            if j < n { assert es[j] == init[j]; }
          }
        }
        if exists i :: 0 <= i < |es| && Keyed(es[i], k) {
          var i :| 0 <= i < |es| && Keyed(es[i], k);
          assert i < n && init[i] == es[i];
        }
      }
    }
  }

  /**
   * A name is a key of the rename map exactly when some globbed stem remaps to
   * something else from it, and its value is the corrected name of the last
   * such stem.
   */
  lemma RenameMapExact(stems: seq<string>, k: string)
    ensures Get(RenameMapOf(stems), k).Some? <==> exists i :: 0 <= i < |stems| && Keyed(RenameEntry(stems[i]), k)
    ensures Get(RenameMapOf(stems), k).Some? ==> LastEntry(Entries(stems), k, Get(RenameMapOf(stems), k).value)
  {
    MapOfExact(Entries(stems), k);
  }

  /** Every value of the rename map differs from its key, fits 63 characters and is ASCII letters and digits. */
  lemma RenameValuesWellFormed(stems: seq<string>, k: string)
    requires Get(RenameMapOf(stems), k).Some?
    ensures var v := Get(RenameMapOf(stems), k).value;
            v != k && |v| <= MaxNameLength && AllAlnum(v)
  {
    MapOfExact(Entries(stems), k);
    var v := Get(RenameMapOf(stems), k).value;
    var i :| 0 <= i < |stems| && Entries(stems)[i] == Some((k, v));
    assert RemapFilename(stems[i]) == (k, v);
  }

  // ---------------------------------------------------------------------------
  // The per-line rewrite

  /** Stripped lines copied as they are before any tokenizing: blank, comment, constant, separator and package lines. */
  predicate KeptAsIs(stripped: string)
  {
    stripped == [] || StartsWith(stripped, "#") || Contains(stripped, "=")
    || Contains(stripped, "swl_sdv_adas_msgs") || Contains(stripped, "ssot_abcd")
    || StartsWith(stripped, "builtin_interfaces") || stripped == "---"
  }

  /** The last index of `c` in `s`, if any. */
  function LastIndex(s: string, c: char): (r: Option<nat>)
    ensures r.Some? ==> r.value < |s| && s[r.value] == c
    ensures forall i :: (if r.Some? then r.value + 1 else 0) <= i < |s| ==> s[i] != c
  {
    if s == [] then None
    else if s[|s| - 1] == c then Some(|s| - 1)
    else LastIndex(s[..|s| - 1], c)
  }

  /**
   * `re.sub(r'\[.*\]', '', t)` on a token, which holds no line break: the
   * leftmost match starts at the first `[` and, being greedy, ends at the last
   * `]` after it; nothing of the pattern is left after that.
   */
  function BaseType(t: string): (b: string)
    ensures |b| <= |t|
  {
    var open := FindFrom(t, '[', 0);
    var close := LastIndex(t, ']');
    if open.Some? && close.Some? && open.value < close.value then t[..open.value] + t[close.value + 1..] else t
  }

  /** `rename_map.get(base, remap_filename_to_ros_convention(base)[1])`. */
  function CorrectedType(base: string, renames: Dict): string
  {
    var g := Get(renames, base);
    if g.Some? then g.value else RemapFilename(base).1
  }

  /** Python's `s.replace(pat, rep)`; an empty pattern puts `rep` around every character. */
  function Replace(s: string, pat: string, rep: string): string
  {
    if pat != [] then ReplaceAll(s, pat, rep) else Interleave(s, rep)
  }

  function Interleave(s: string, rep: string): string
  {
    if s == [] then rep else rep + [s[0]] + Interleave(s[1..], rep)
  }

  /** What a line becomes, and whether it marks its file as changed. */
  datatype Rewrite = Rewrite(line: string, changed: bool)

  /** One iteration of the line loop of `sanitize_interface_files`. */
  function RewriteLine(line: string, renames: Dict): (r: Rewrite)
    ensures !r.changed ==> r.line == line
    ensures KeptAsIs(Strip(line)) ==> !r.changed
    ensures |SplitWhitespace(Strip(line))| != 2 ==> r == Rewrite(line, false)
  {
    var stripped := Strip(line);
    if KeptAsIs(stripped) then Rewrite(line, false)
    else
      var tokens := SplitWhitespace(stripped);
      if |tokens| != 2 then Rewrite(line, false)
      else RewriteField(line, tokens[0], tokens[1], renames)
  }

  /** The rewrite of a line made of the two words `typeName fieldName`. */
  function RewriteField(line: string, typeName: string, fieldName: string, renames: Dict): (r: Rewrite)
    ensures !r.changed ==> r.line == line
  {
    var base := BaseType(typeName);
    if base == "float" then Rewrite(Replace(typeName, "float", "float32") + " " + fieldName + "\n", true)
    else if base in PrimitiveTypes then Rewrite(line, false)
    else
      var corrected := CorrectedType(base, renames);
      if corrected != base then Rewrite(Replace(typeName, base, corrected) + " " + fieldName + "\n", true)
      else Rewrite(line, false)
  }

  /** The rewrite of every line, in order. */
  function Results(lines: seq<string>, renames: Dict): (rs: seq<Rewrite>)
    ensures |rs| == |lines|
    ensures forall i :: 0 <= i < |lines| ==> rs[i] == RewriteLine(lines[i], renames)
  {
    seq(|lines|, i requires 0 <= i < |lines| => RewriteLine(lines[i], renames))
  }

  function NewLines(rs: seq<Rewrite>): (r: seq<string>)
    ensures |r| == |rs|
  {
    if rs == [] then [] else NewLines(DropLast(rs)) + [rs[|rs| - 1].line]
  }

  /** The `changed` flag after the given rewrites. */
  function Changed(rs: seq<Rewrite>): bool
  {
    rs != [] && (Changed(DropLast(rs)) || rs[|rs| - 1].changed)
  }

  /** The new lines of a file: one per old line. */
  function Rewritten(lines: seq<string>, renames: Dict): (r: seq<string>)
    ensures |r| == |lines|
  {
    NewLines(Results(lines, renames))
  }

  predicate AnyChanged(lines: seq<string>, renames: Dict)
  {
    Changed(Results(lines, renames))
  }

  /** With no rewrite marked changed, the new lines are the old ones. */
  lemma {:induction false} UnchangedLines(rs: seq<Rewrite>, lines: seq<string>)
    requires |rs| == |lines| && !Changed(rs)
    requires forall i :: 0 <= i < |rs| && !rs[i].changed ==> rs[i].line == lines[i]
    ensures NewLines(rs) == lines
    decreases |rs|
  {
    if rs != [] {
      UnchangedLines(DropLast(rs), DropLast(lines));
    }
  }

  /** A file none of whose lines is marked changed is rewritten to itself, so skipping the write loses nothing. */
  lemma UnchangedIsIdentity(lines: seq<string>, renames: Dict)
    requires !AnyChanged(lines, renames)
    ensures Rewritten(lines, renames) == lines
  {
    UnchangedLines(Results(lines, renames), lines);
  }

  /** The file is marked changed exactly when one of its lines is. */
  lemma {:induction false} ChangedSome(rs: seq<Rewrite>)
    ensures Changed(rs) <==> exists i :: 0 <= i < |rs| && rs[i].changed
    decreases |rs|
  {
    if rs != [] {
      var init := DropLast(rs);
      ChangedSome(init);
      if exists i :: 0 <= i < |rs| && rs[i].changed {
        var i :| 0 <= i < |rs| && rs[i].changed;
        if i < |init| { assert init[i] == rs[i]; }
      }
      if exists i :: 0 <= i < |init| && init[i].changed {
        var i :| 0 <= i < |init| && init[i].changed;
        assert rs[i] == init[i];
      }
    }
  }

  /** Extending the rewrites by one line adds its text and may set the flag. */
  lemma PrefixStep(rs: seq<Rewrite>, i: nat)
    requires i < |rs|
    ensures NewLines(rs[..i + 1]) == NewLines(rs[..i]) + [rs[i].line]
    ensures Changed(rs[..i + 1]) == (Changed(rs[..i]) || rs[i].changed)
  {
    assert DropLast(rs[..i + 1]) == rs[..i];
  }

  /** The line loop of one file: the new lines and the `changed` flag. */
  method SanitizeLines(lines: seq<string>, renames: Dict) returns (newLines: seq<string>, changed: bool)
    ensures newLines == Rewritten(lines, renames)
    ensures changed == AnyChanged(lines, renames)
  {
    ghost var rs := Results(lines, renames);
    newLines := [];
    changed := false;
    for i := 0 to |lines|
      invariant newLines == NewLines(rs[..i])
      invariant changed == Changed(rs[..i])
    {
      var r := RewriteLine(lines[i], renames);
      PrefixStep(rs, i);
      newLines := newLines + [r.line];
      if r.changed {
        changed := true;
      }
    }
    assert rs[..|lines|] == rs;
  }

  // ---------------------------------------------------------------------------
  // Field lines of a known shape

  predicate NoSpace(s: string) { forall i :: 0 <= i < |s| ==> !IsSpace(s[i]) }

  /** An array bound as written after a type: none, `[]` or `[n]`. */
  predicate ArraySuffix(s: string)
  {
    s == [] || (|s| >= 2 && s[0] == '[' && s[|s| - 1] == ']' && forall i :: 0 < i < |s| - 1 ==> IsDigit(s[i]))
  }

  /** A base type name that cannot occur inside an array suffix. */
  predicate PlainBase(b: string)
  {
    b != [] && NoSpace(b) && !IsDigit(b[0]) && b[0] != '[' && b[0] != ']'
    && forall i :: 0 <= i < |b| ==> b[i] != '[' && b[i] != ']'
  }

  lemma ArraySuffixNoSpace(s: string)
    requires ArraySuffix(s)
    ensures NoSpace(s)
  {
  }

  /** A field line `t f` with its line break strips to `t f`. */
  lemma StripFieldLine(t: string, f: string)
    requires t != [] && f != [] && NoSpace(t) && NoSpace(f)
    ensures Strip(t + " " + f + "\n") == t + " " + f
  {
    var s := t + " " + f;
    assert s[|s| - 1] == f[|f| - 1];
    assert LStrip(s + "\n") == s + "\n";
    assert (s + "\n")[..|s + "\n"| - 1] == s;
    assert RStrip(s) == s;
    assert RStrip(s + "\n") == s;
  }

  /** The words of `t f`. */
  lemma SplitFieldLine(t: string, f: string)
    requires t != [] && f != [] && NoSpace(t) && NoSpace(f)
    ensures SplitWhitespace(t + " " + f) == [t, f]
  {
    var s := t + " " + f;
    WordLengthOf(t, " " + f);
    assert s == t + (" " + f);
    assert s[..|t|] == t;
    assert s[|t|..] == " " + f;
    assert (" " + f)[1..] == f;
    WordLengthOf(f, []);
    assert f + [] == f;
    assert f[..|f|] == f;
    assert SplitWhitespace(f) == [f] + SplitWhitespace(f[|f|..]);
  }

  /** A line that strips to two words is rewritten as the field `t f`. */
  lemma FieldLine(line: string, renames: Dict, t: string, f: string)
    requires t != [] && f != [] && NoSpace(t) && NoSpace(f)
    requires Strip(line) == t + " " + f && !KeptAsIs(Strip(line))
    ensures RewriteLine(line, renames) == RewriteField(line, t, f, renames)
  {
    SplitFieldLine(t, f);
  }

  lemma {:induction false} WordLengthOf(w: string, rest: string)
    requires w != [] && NoSpace(w)
    requires rest == [] || IsSpace(rest[0])
    ensures WordLength(w + rest) == |w|
    decreases |w|
  {
    if |w| > 1 {
      assert (w + rest)[1..] == w[1..] + rest;
      WordLengthOf(w[1..], rest);
    } else {
      assert (w + rest)[1..] == rest;
    }
  }

  /** `re.sub(r'\[.*\]', '', b + s)` leaves the base of an array type. */
  lemma BaseOfArrayType(b: string, s: string)
    requires PlainBase(b) && ArraySuffix(s)
    ensures BaseType(b + s) == b
  {
    var t := b + s;
    if s != [] {
      assert t[|b|] == '[';
      assert FindFrom(t, '[', 0) == Some(|b|);
      assert LastIndex(t, ']') == Some(|t| - 1);
      assert t[..|b|] == b;
    } else {
      assert t == b;
      assert FindFrom(t, '[', 0).None?;
    }
  }

  /** A string that does not hold `p` at any position is left alone by `replace`. */
  lemma {:induction false} ReplaceAbsent(s: string, p: string, r: string)
    requires p != [] && forall i :: 0 <= i < |s| ==> s[i] != p[0]
    ensures ReplaceAll(s, p, r) == s
    decreases |s|
  {
    if |s| >= |p| {
      assert s[..|p|][0] == s[0];
      ReplaceAbsent(s[1..], p, r);
    }
  }

  /** Replacing the base of an array type renames the base and keeps the bound. */
  lemma ReplaceBase(b: string, s: string, c: string)
    requires PlainBase(b) && ArraySuffix(s)
    ensures Replace(b + s, b, c) == c + s
  {
    var t := b + s;
    assert t[..|b|] == b && t[|b|..] == s;
    ReplaceAbsent(s, b, c);
  }

  /**
   * A `float` field, scalar or array, becomes `float32` with its bound and
   * field name kept.
   */
  lemma FloatFieldWidened(line: string, renames: Dict, s: string, f: string)
    requires ArraySuffix(s) && f != [] && NoSpace(f)
    requires Strip(line) == "float" + s + " " + f && !KeptAsIs(Strip(line))
    ensures RewriteLine(line, renames) == Rewrite("float32" + s + " " + f + "\n", true)
  {
    ArraySuffixNoSpace(s);
    FieldLine(line, renames, "float" + s, f);
    FloatFieldRewrite(line, s, f, renames);
  }

  lemma FloatFieldRewrite(line: string, s: string, f: string, renames: Dict)
    requires ArraySuffix(s)
    ensures RewriteField(line, "float" + s, f, renames) == Rewrite("float32" + s + " " + f + "\n", true)
  {
    assert PlainBase("float");
    BaseOfArrayType("float", s);
    ReplaceBase("float", s, "float32");
  }

  /** A field of another primitive type, scalar or array, is left as it is. */
  lemma PrimitiveFieldKept(line: string, renames: Dict, b: string, s: string, f: string)
    requires PlainBase(b) && ArraySuffix(s) && f != [] && NoSpace(f)
    requires b in PrimitiveTypes && b != "float"
    requires Strip(line) == b + s + " " + f
    ensures RewriteLine(line, renames) == Rewrite(line, false)
  {
    if !KeptAsIs(Strip(line)) {
      ArraySuffixNoSpace(s);
      FieldLine(line, renames, b + s, f);
      BaseOfArrayType(b, s);
    }
  }

  lemma Float32Plain()
    ensures PlainBase("float32") && "float32" in PrimitiveTypes && "float32" != "float"
  {
    assert "float32"[5] == '3';
  }

  /** The line a `float` field is rewritten to is left alone by a second pass. */
  lemma FloatFieldStable(s: string, f: string, renames: Dict)
    requires ArraySuffix(s) && f != [] && NoSpace(f)
    ensures RewriteLine("float32" + s + " " + f + "\n", renames) == Rewrite("float32" + s + " " + f + "\n", false)
  {
    ArraySuffixNoSpace(s);
    StripFieldLine("float32" + s, f);
    Float32Plain();
    PrimitiveFieldKept("float32" + s + " " + f + "\n", renames, "float32", s, f);
  }

  /**
   * A message-type field, scalar or array, takes the corrected name of its
   * base (the rename map's entry, or else the fresh remap) with its bound and
   * field name kept; when that name equals the base the line is untouched.
   */
  lemma TypeFieldRenamed(line: string, renames: Dict, b: string, s: string, f: string)
    requires PlainBase(b) && ArraySuffix(s) && f != [] && NoSpace(f)
    requires b !in PrimitiveTypes
    requires Strip(line) == b + s + " " + f && !KeptAsIs(Strip(line))
    ensures var c := CorrectedType(b, renames);
            RewriteLine(line, renames) == (if c != b then Rewrite(c + s + " " + f + "\n", true) else Rewrite(line, false))
  {
    ArraySuffixNoSpace(s);
    FieldLine(line, renames, b + s, f);
    BaseOfArrayType(b, s);
    ReplaceBase(b, s, CorrectedType(b, renames));
  }

  // ---------------------------------------------------------------------------
  // The directory

  /** The glob lists every file of the directory once. */
  predicate IsListing(listing: seq<string>, files: map<string, seq<string>>)
  {
    NoDuplicates(listing) && (forall k :: k in listing ==> k in files) && forall k :: k in files ==> k in listing
  }

  /** The files after the second loop has handled the stems of `stems` in order. */
  ghost function RewriteFiles(files: map<string, seq<string>>, stems: seq<string>, renames: Dict): map<string, seq<string>>
  {
    if stems == [] then files
    else
      var g := RewriteFiles(files, DropLast(stems), renames);
      var k := stems[|stems| - 1];
      if k in g && AnyChanged(g[k], renames) then g[k := Rewritten(g[k], renames)] else g
  }

  /** The files after the renames of `renames`, each applied only when its old file exists. */
  function ApplyRenames(files: map<string, seq<string>>, renames: Dict): map<string, seq<string>>
  {
    if renames == [] then files
    else
      var g := ApplyRenames(files, DropLast(renames));
      var (oldName, newName) := renames[|renames| - 1];
      if oldName in g then (g - {oldName})[newName := g[oldName]] else g
  }

  /** Every listed file ends up holding its rewritten lines, and no file appears or disappears. */
  lemma {:induction false} RewriteFilesEffect(files: map<string, seq<string>>, stems: seq<string>, renames: Dict)
    requires NoDuplicates(stems)
    ensures RewriteFiles(files, stems, renames).Keys == files.Keys
    ensures forall k :: k in files ==>
              RewriteFiles(files, stems, renames)[k] == (if k in stems then Rewritten(files[k], renames) else files[k])
    decreases |stems|
  {
    if stems != [] {
      var init := DropLast(stems);
      var k := stems[|stems| - 1];
      assert NoDuplicates(init);
      RewriteFilesEffect(files, init, renames);
      assert k !in init;
      if k in files && !AnyChanged(files[k], renames) {
        UnchangedIsIdentity(files[k], renames);
      }
      forall x | x in files
        ensures RewriteFiles(files, stems, renames)[x] == (if x in stems then Rewritten(files[x], renames) else files[x])
      {
        assert x in stems <==> x in init || x == k;
      }
    }
  }

  /** A rename key that is no rename's target is gone once the renames are done. */
  lemma {:induction false} RenamedAway(files: map<string, seq<string>>, renames: Dict, i: nat)
    requires i < |renames|
    requires forall j :: 0 <= j < |renames| ==> renames[j].1 != renames[i].0
    ensures renames[i].0 !in ApplyRenames(files, renames)
    decreases |renames|
  {
    var n := |renames| - 1;
    if i < n {
      var init := DropLast(renames);
      assert init[i] == renames[i];
      RenamedAway(files, init, i);
    }
  }

  /** Renames move contents and invent none: every file afterwards holds what some file held before. */
  lemma {:induction false} RenamesKeepContents(files: map<string, seq<string>>, renames: Dict)
    ensures forall k :: k in ApplyRenames(files, renames) ==> exists k' :: k' in files && ApplyRenames(files, renames)[k] == files[k']
    decreases |renames|
  {
    if renames != [] {
      RenamesKeepContents(files, DropLast(renames));
    }
  }

  /** The directory of interface files of one extension, by stem. */
  class InterfaceDir {
    var files: map<string, seq<string>>

    constructor (files: map<string, seq<string>>)
      ensures this.files == files
    {
      this.files := files;
    }

    /**
     * `sanitize_interface_files`: the rename map from the glob, the line
     * rewrite of every listed file, then the renames.
     */
    method SanitizeInterfaceFiles(listing: seq<string>) returns (renames: Dict)
      requires IsListing(listing, files)
      modifies this
      ensures renames == RenameMapOf(listing)
      ensures files == ApplyRenames(RewriteFiles(old(files), listing, renames), renames)
    {
      renames := BuildRenameMap(listing);
      RewriteListed(listing, renames);
      RenameFiles(renames);
    }

    /** The second loop: each listed file is written back when one of its lines changed. */
    method RewriteListed(listing: seq<string>, renames: Dict)
      requires IsListing(listing, files)
      modifies this
      ensures files == RewriteFiles(old(files), listing, renames)
    {
      for i := 0 to |listing|
        invariant files == RewriteFiles(old(files), listing[..i], renames)
        invariant files.Keys == old(files).Keys
      {
        assert DropLast(listing[..i + 1]) == listing[..i];
        RewriteOne(listing[i], renames);
      }
      assert listing[..|listing|] == listing;
    }

    /** One iteration of the second loop: read the file, rewrite its lines, write it back if one changed. */
    method RewriteOne(stem: string, renames: Dict)
      requires stem in files
      modifies this
      ensures files == if AnyChanged(old(files)[stem], renames) then old(files)[stem := Rewritten(old(files)[stem], renames)] else old(files)
    {
      var newLines, changed := SanitizeLines(files[stem], renames);
      if changed {
        files := files[stem := newLines];
      }
    }

    /** The last loop: each entry renames its old file when that file exists. */
    method RenameFiles(renames: Dict)
      modifies this
      ensures files == ApplyRenames(old(files), renames)
    {
      for j := 0 to |renames|
        invariant files == ApplyRenames(old(files), renames[..j])
      {
        assert DropLast(renames[..j + 1]) == renames[..j];
        var (oldName, newName) := renames[j];
        if oldName in files {
          files := (files - {oldName})[newName := files[oldName]];
        }
      }
      assert renames[..|renames|] == renames;
    }
  }

  /**
   * After sanitizing, every file of the directory that was not renamed holds
   * its rewritten lines, and keeps its number of lines.
   */
  lemma SanitizedDirectory(files: map<string, seq<string>>, listing: seq<string>, k: string)
    requires IsListing(listing, files) && k in files
    ensures k in RewriteFiles(files, listing, RenameMapOf(listing))
    ensures RewriteFiles(files, listing, RenameMapOf(listing))[k] == Rewritten(files[k], RenameMapOf(listing))
    ensures |RewriteFiles(files, listing, RenameMapOf(listing))[k]| == |files[k]|
  {
    RewriteFilesEffect(files, listing, RenameMapOf(listing));
  }
}
