/**
 * Naming helpers of the generator (utils.py): integer-width selection for
 * enums, the PBS width override, case conversions, acronyms of hints, topic
 * hints, the ROS file-name convention, and the manifest passes that rewrite
 * `ros_filename` entries in place.
 */
module Utils {
  import opened Text

  /** Field types emitted as they are. */
  const PrimitiveTypes: set<string> := {
    "bool", "char", "string", "double",
    "float", "float32", "float64",
    "int8", "uint8", "int16", "uint16",
    "int32", "uint32", "int64", "uint64"
  }

  /** `primitive_byte_size` option values and the integer width each one selects. */
  const PbsSizes: map<string, nat> := map["PBS_ONE" := 8, "PBS_TWO" := 16, "PBS_FOUR" := 32, "PBS_EIGHT" := 64]

  /** The maximum length of a ROS interface name and of a constant line name. */
  const MaxNameLength: nat := 63

  // ---------------------------------------------------------------------------
  // resolve_type

  /**
   * The integer type selected by a `primitive_byte_size` option: the signedness
   * of `baseType`, the width of the option. `pbsValue` is None when the field
   * has no such option.
   */
  function ResolveType(baseType: string, pbsValue: Option<string>): (r: Option<string>)
    ensures r.Some? <==> pbsValue.Some? && pbsValue.value in PbsSizes
                         && (StartsWith(baseType, "uint") || StartsWith(baseType, "int"))
    ensures r.Some? ==> r.value in PrimitiveTypes
    ensures r.Some? ==> (StartsWith(r.value, "uint") <==> StartsWith(baseType, "uint"))
    ensures r.Some? ==> EndsWith(r.value, NatToString(PbsSizes[pbsValue.value]))
    ensures r.Some? ==> r.value == (if StartsWith(baseType, "uint") then "uint" else "int")
                                   + NatToString(PbsSizes[pbsValue.value])
  {
    if pbsValue.None? || pbsValue.value !in PbsSizes then None
    else
      var bits := NatToString(PbsSizes[pbsValue.value]);
      PbsBitsText();
      IntegerTypeNames(bits);
      if StartsWith(baseType, "uint") then Some("uint" + bits)
      else if StartsWith(baseType, "int") then Some("int" + bits)
      else None
  }

  lemma PbsBitsText()
    ensures forall k :: k in PbsSizes ==> NatToString(PbsSizes[k]) in {"8", "16", "32", "64"}
  {
    assert NatToString(8) == "8";
    assert NatToString(16) == NatToString(1) + [DigitChar(6)] == "16";
    assert NatToString(32) == NatToString(3) + [DigitChar(2)] == "32";
    assert NatToString(64) == NatToString(6) + [DigitChar(4)] == "64";
  }

  lemma IntegerTypeNames(bits: string)
    requires bits in {"8", "16", "32", "64"}
    ensures "uint" + bits in PrimitiveTypes && "int" + bits in PrimitiveTypes
    ensures StartsWith("uint" + bits, "uint") && !StartsWith("int" + bits, "uint")
  {
    assert ("int" + bits)[0] == 'i';
    if bits == "8" {
      assert "uint" + bits == "uint8" && "int" + bits == "int8";
    } else if bits == "16" {
      assert "uint" + bits == "uint16" && "int" + bits == "int16";
    } else if bits == "32" {
      assert "uint" + bits == "uint32" && "int" + bits == "int32";
    } else {
      assert "uint" + bits == "uint64" && "int" + bits == "int64";
    }
  }

  // ---------------------------------------------------------------------------
  // to_snake_case

  /** Puts `_` in front of every upper-case letter of `s`. */
  function UnderscoreUppers(s: string): (r: string)
    ensures |r| >= |s|
  {
    if s == [] then []
    else (if IsUpper(s[0]) then ['_', s[0]] else [s[0]]) + UnderscoreUppers(s[1..])
  }

  /** `to_snake_case`: an `_` before every upper-case letter except at the start, then lower case. */
  function ToSnakeCase(name: string): string
  {
    if name == [] then [] else Lower([name[0]] + UnderscoreUppers(name[1..]))
  }

  lemma {:induction false} UnderscoreUppersNoop(s: string)
    requires forall i :: 0 <= i < |s| ==> !IsUpper(s[i])
    ensures UnderscoreUppers(s) == s
  {
    if s != [] {
      UnderscoreUppersNoop(s[1..]);
    }
  }

  /** A snake-case name has no upper-case letter, so converting it again changes nothing. */
  lemma SnakeCaseIdempotent(name: string)
    ensures forall i :: 0 <= i < |ToSnakeCase(name)| ==> !IsUpper(ToSnakeCase(name)[i])
    ensures ToSnakeCase(ToSnakeCase(name)) == ToSnakeCase(name)
  {
    if name != [] {
      var r := ToSnakeCase(name);
      LowerHasNoUpper([name[0]] + UnderscoreUppers(name[1..]));
      UnderscoreUppersNoop(r[1..]);
      assert [r[0]] + r[1..] == r;
      assert Lower(r) == r;
    }
  }

  lemma {:induction false} UnderscoreUppersKeepsOut(s: string, c: char)
    requires c != '_' && c !in s
    ensures c !in UnderscoreUppers(s)
  {
    if s != [] {
      UnderscoreUppersKeepsOut(s[1..], c);
    }
  }

  /** Snake case only adds `_` and lower-cases letters: no other character appears. */
  lemma SnakeCaseKeepsOut(name: string, c: char)
    requires c != '_' && !IsLower(c) && c !in name
    ensures c !in ToSnakeCase(name)
  {
    if name != [] {
      UnderscoreUppersKeepsOut(name[1..], c);
      var u := [name[0]] + UnderscoreUppers(name[1..]);
      assert c !in u;
      forall i | 0 <= i < |u| ensures Lower(u)[i] != c {
      }
    }
  }

  // ---------------------------------------------------------------------------
  // pascal_case

  function CapitalizeAll(parts: seq<string>): (r: seq<string>)
    ensures |r| == |parts|
    ensures forall k :: 0 <= k < |r| ==> r[k] == Capitalize(parts[k])
  {
    if parts == [] then [] else [Capitalize(parts[0])] + CapitalizeAll(parts[1..])
  }

  function Concat(parts: seq<string>): string
  {
    if parts == [] then [] else parts[0] + Concat(parts[1..])
  }

  /** `pascal_case`: lower-case, split on `_`, capitalize every part, join. */
  function PascalCase(s: string): string
  {
    Concat(CapitalizeAll(Split(Lower(s), '_')))
  }

  function TotalLength(parts: seq<string>): nat
  {
    if parts == [] then 0 else |parts[0]| + TotalLength(parts[1..])
  }

  lemma {:induction false} SplitLength(s: string, sep: char)
    ensures TotalLength(Split(s, sep)) + Count(s, sep) == |s|
    decreases |s|
  {
    if s != [] {
      SplitLength(s[1..], sep);
      CountAppend([s[0]], s[1..], sep);
      assert [s[0]] + s[1..] == s;
      var rest := Split(s[1..], sep);
      if s[0] != sep {
        assert TotalLength(rest) == |rest[0]| + TotalLength(rest[1..]);
      }
    }
  }

  lemma {:induction false} ConcatCapitalized(parts: seq<string>, c: char)
    requires c != '_' ==> (!IsLower(c) && !IsUpper(c))
    requires forall k :: 0 <= k < |parts| ==> c !in parts[k]
    ensures |Concat(CapitalizeAll(parts))| == TotalLength(parts)
    ensures c !in Concat(CapitalizeAll(parts))
  {
    if parts != [] {
      ConcatCapitalized(parts[1..], c);
      assert CapitalizeAll(parts)[1..] == CapitalizeAll(parts[1..]);
      var p := parts[0];
      if p != [] {
        assert forall i :: 0 <= i < |p| - 1 ==> Lower(p[1..])[i] != c;
      }
    }
  }

  /** A PascalCase name has no `_`, and it has as many characters as its input without the underscores. */
  lemma PascalCaseShape(s: string)
    ensures '_' !in PascalCase(s)
    ensures |PascalCase(s)| == |s| - Count(s, '_')
  {
    var l := Lower(s);
    SplitPieces(l, '_');
    SplitLength(l, '_');
    ConcatCapitalized(Split(l, '_'), '_');
    CountLower(s);
  }

  lemma {:induction false} CountLower(s: string)
    ensures Count(Lower(s), '_') == Count(s, '_')
  {
    if s != [] {
      var s' := s[..|s| - 1];
      assert Lower(s)[..|s| - 1] == Lower(s');
      CountLower(s');
    }
  }

  // ---------------------------------------------------------------------------
  // hint_to_acronym

  /** One upper-cased first character per non-empty part, in order. */
  function FirstLetters(parts: seq<string>): string
  {
    if parts == [] then []
    else (if parts[0] == [] then [] else [UpperChar(parts[0][0])]) + FirstLetters(parts[1..])
  }

  /** `hint_to_acronym`: the first letter of every non-empty `_`-separated part, upper-cased. */
  function HintToAcronym(hint: string): string
  {
    FirstLetters(Split(hint, '_'))
  }

  /**
   * The same acronym read off character by character: the characters that are
   * not `_` and stand at the start of `s` or right after an `_`.
   */
  function AcronymScan(s: string, atStart: bool): string
  {
    if s == [] then []
    else if s[0] == '_' then AcronymScan(s[1..], true)
    else (if atStart then [UpperChar(s[0])] else []) + AcronymScan(s[1..], false)
  }

  lemma {:induction false} AcronymScanMatches(s: string)
    ensures AcronymScan(s, true) == FirstLetters(Split(s, '_'))
    ensures AcronymScan(s, false) == FirstLetters(Split(s, '_')[1..])
    decreases |s|
  {
    if s != [] {
      var rest := Split(s[1..], '_');
      AcronymScanMatches(s[1..]);
      if s[0] == '_' {
        assert Split(s, '_') == [[]] + rest;
        assert Split(s, '_')[1..] == rest;
      } else {
        var parts := [[s[0]] + rest[0]] + rest[1..];
        assert Split(s, '_') == parts;
        assert parts[1..] == rest[1..];
      }
    }
  }

  /** The acronym is the start-of-part characters, upper-cased, in order. */
  lemma HintToAcronymByScan(hint: string)
    ensures HintToAcronym(hint) == AcronymScan(hint, true)
  {
    AcronymScanMatches(hint);
  }

  lemma {:induction false} AcronymScanFalse(s: string)
    ensures AcronymScan(s, false) == [] <==> forall i :: 1 <= i < |s| ==> s[i] == '_' || s[i - 1] != '_'
    decreases |s|
  {
    if s != [] {
      if s[0] == '_' {
        AcronymScanTrue(s[1..]);
      } else {
        AcronymScanFalse(s[1..]);
      }
    }
  }

  lemma {:induction false} AcronymScanTrue(s: string)
    ensures AcronymScan(s, true) == [] <==> (s == [] || s[0] == '_') && forall i :: 1 <= i < |s| ==> s[i] == '_' || s[i - 1] != '_'
    decreases |s|
  {
    if s != [] {
      if s[0] == '_' {
        AcronymScanTrue(s[1..]);
      }
    }
  }

  /** The acronym is empty exactly when the hint is empty or made only of underscores. */
  lemma HintToAcronymEmpty(hint: string)
    ensures HintToAcronym(hint) == [] <==> forall i :: 0 <= i < |hint| ==> hint[i] == '_'
  {
    HintToAcronymByScan(hint);
    AcronymScanTrue(hint);
    if AcronymScan(hint, true) == [] {
      forall i | 0 <= i < |hint| ensures hint[i] == '_' {
        AllUnderscores(hint, i);
      }
    }
  }

  lemma {:induction false} AllUnderscores(s: string, i: nat)
    requires s == [] || s[0] == '_'
    requires forall j :: 1 <= j < |s| ==> s[j] == '_' || s[j - 1] != '_'
    requires i < |s|
    ensures s[i] == '_'
  {
    if i > 0 {
      AllUnderscores(s, i - 1);
    }
  }

  // ---------------------------------------------------------------------------
  // is_primitive_type, compute_topic_hint, compute_topic_hint2

  /** `is_primitive_type`: the last `.`-separated part names a primitive type. */
  predicate IsPrimitiveType(typeName: string)
  {
    LastSegment(typeName, '.') in PrimitiveTypes
  }

  /** A type is primitive by its last part: plain or qualified by any package. */
  lemma IsPrimitiveTypeQualified(package: string, t: string)
    requires '.' !in t
    ensures IsPrimitiveType(t) <==> t in PrimitiveTypes
    ensures IsPrimitiveType(package + "." + t) <==> t in PrimitiveTypes
  {
    LastSegmentOfPlain(t);
    LastSegmentAfter(package + ".", t);
  }

  lemma {:induction false} LastSegmentOfPlain(t: string)
    requires '.' !in t
    ensures LastSegment(t, '.') == t
    decreases |t|
  {
    if t != [] {
      assert t[|t| - 1] in t;
      LastSegmentOfPlain(t[..|t| - 1]);
      assert t[..|t| - 1] + [t[|t| - 1]] == t;
    }
  }

  lemma {:induction false} LastSegmentAfter(a: string, t: string)
    requires a != [] && a[|a| - 1] == '.' && '.' !in t
    ensures LastSegment(a + t, '.') == t
    decreases |t|
  {
    if t == [] {
      assert a + t == a;
    } else {
      assert t[|t| - 1] in t;
      assert (a + t)[..|a + t| - 1] == a + t[..|t| - 1];
      LastSegmentAfter(a, t[..|t| - 1]);
      assert t[..|t| - 1] + [t[|t| - 1]] == t;
    }
  }

  function DropLast<T>(s: seq<T>): seq<T>
    requires |s| >= 1
  {
    s[..|s| - 1]
  }

  /**
   * `compute_topic_hint`: the snake case of all but the last `.`-part joined by
   * `_`, for a topic with four or more parts, or with three parts whose middle
   * part is `adas`, `chassis` or `body` in any case; otherwise empty.
   */
  function ComputeTopicHint(topic: string): (r: string)
    ensures '.' !in r
    ensures forall i :: 0 <= i < |r| ==> !IsUpper(r[i])
    ensures r != [] ==> Count(topic, '.') >= 2
  {
    var parts := Split(topic, '.');
    SplitPieces(topic, '.');
    if |parts| >= 4 || (|parts| == 3 && Lower(parts[1]) in ["adas", "chassis", "body"]) then
      var joined := Join(DropLast(parts), "_");
      JoinKeepsOut(DropLast(parts), "_", '.');
      SnakeCaseKeepsOut(joined, '.');
      SnakeCaseIdempotent(joined);
      ToSnakeCase(joined)
    else []
  }

  lemma {:induction false} JoinKeepsOut(parts: seq<string>, sep: string, c: char)
    requires c !in sep
    requires forall k :: 0 <= k < |parts| ==> c !in parts[k]
    ensures c !in Join(parts, sep)
  {
    if |parts| > 1 {
      JoinKeepsOut(parts[1..], sep, c);
    }
  }

  /** The topics `compute_topic_hint` gives a hint: four or more parts, or three around `adas`, `chassis` or `body`. */
  predicate HasTopicHint(topic: string)
  {
    var parts := Split(topic, '.');
    |parts| >= 4 || (|parts| == 3 && Lower(parts[1]) in ["adas", "chassis", "body"])
  }

  /**
   * The two hints agree: where `compute_topic_hint` gives one, it is the
   * `compute_topic_hint2` prefix with its dots turned into `_`, in snake case;
   * every other topic has the empty hint.
   */
  lemma TopicHintFromHint2(topic: string)
    ensures HasTopicHint(topic) ==> ComputeTopicHint(topic) == ToSnakeCase(ReplaceAll(ComputeTopicHint2(topic), ".", "_"))
    ensures !HasTopicHint(topic) ==> ComputeTopicHint(topic) == []
  {
    var parts := Split(topic, '.');
    SplitPieces(topic, '.');
    if HasTopicHint(topic) {
      JoinReplaceSeparator(DropLast(parts));
    }
  }

  /** Parts without a `.`, joined by `.`, then every `.` replaced by `_`: the parts joined by `_`. */
  lemma {:induction false} JoinReplaceSeparator(parts: seq<string>)
    requires forall k :: 0 <= k < |parts| ==> '.' !in parts[k]
    ensures ReplaceAll(Join(parts, "."), ".", "_") == Join(parts, "_")
  {
    if parts == [] {
    } else if |parts| == 1 {
      ReplaceAbsent(parts[0], ".", '.', "_");
    } else {
      var t := Join(parts[1..], ".");
      assert '.' !in parts[0];
      JoinReplaceSeparator(parts[1..]);
      JoinCons(parts, ".");
      JoinCons(parts, "_");
      ReplaceAfterAbsent(parts[0], "." + t, '.', "_");
      ReplaceLeading("." + t, t);
    }
  }

  lemma JoinCons(parts: seq<string>, sep: string)
    requires |parts| > 1
    ensures Join(parts, sep) == parts[0] + (sep + Join(parts[1..], sep))
  {
  }

  /** A text that starts with `.` has it replaced by `_`, then the rest is replaced. */
  lemma ReplaceLeading(s: string, t: string)
    requires s == "." + t
    ensures ReplaceAll(s, ".", "_") == "_" + ReplaceAll(t, ".", "_")
  {
    assert s[..1] == "." && s[1..] == t;
  }

  /** A one-character pattern that does not occur is not replaced. */
  lemma {:induction false} ReplaceAbsent(s: string, pat: string, c: char, rep: string)
    requires pat == [c] && c !in s
    ensures ReplaceAll(s, pat, rep) == s
    decreases |s|
  {
    if |s| >= 1 {
      assert s[..1] == [s[0]];
      ReplaceAbsent(s[1..], pat, c, rep);
      assert [s[0]] + s[1..] == s;
    }
  }

  /** Replacing a one-character pattern in `a + b` where `a` lacks it: `a`, then the replacement of `b`. */
  lemma {:induction false} ReplaceAfterAbsent(a: string, b: string, c: char, rep: string)
    requires c !in a
    ensures ReplaceAll(a + b, [c], rep) == a + ReplaceAll(b, [c], rep)
    decreases |a|
  {
    if a == [] {
      assert a + b == b;
    } else {
      var s := a + b;
      assert a[0] in a;
      assert s[..1] == [a[0]] != [c];
      assert s[1..] == a[1..] + b;
      ReplaceAfterAbsent(a[1..], b, c, rep);
      calc {
        ReplaceAll(s, [c], rep);
        [s[0]] + ReplaceAll(s[1..], [c], rep);
        [a[0]] + (a[1..] + ReplaceAll(b, [c], rep));
        { assert [a[0]] + a[1..] == a; }
        a + ReplaceAll(b, [c], rep);
      }
    }
  }

  /** `compute_topic_hint2`: the topic without its last `.`-part. */
  function ComputeTopicHint2(topic: string): string
  {
    Join(DropLast(Split(topic, '.')), ".")
  }

  lemma {:induction false} JoinSnoc(parts: seq<string>, x: string, sep: string)
    requires |parts| >= 1
    ensures Join(parts + [x], sep) == Join(parts, sep) + sep + x
  {
    if |parts| > 1 {
      assert (parts + [x])[1..] == parts[1..] + [x];
      JoinSnoc(parts[1..], x, sep);
    }
  }

  /**
   * The hint and the last part put back together with a `.` give the topic;
   * a topic without a `.` has the empty hint.
   */
  lemma TopicHint2Restores(topic: string)
    ensures Count(topic, '.') == 0 ==> ComputeTopicHint2(topic) == []
    ensures Count(topic, '.') > 0 ==>
      ComputeTopicHint2(topic) + "." + Split(topic, '.')[|Split(topic, '.')| - 1] == topic
  {
    var parts := Split(topic, '.');
    SplitPieces(topic, '.');
    SplitJoin(topic, '.');
    if |parts| > 1 {
      JoinSnoc(DropLast(parts), parts[|parts| - 1], ".");
      assert DropLast(parts) + [parts[|parts| - 1]] == parts;
    }
  }

  // ---------------------------------------------------------------------------
  // remap_fqin_to_ros_convention, remap_filename_to_ros_convention

  /** `re.sub(r'\.(msg|srv)$', '', f)` */
  function StripInterfaceExtension(f: string): string
  {
    if EndsWith(f, ".msg") || EndsWith(f, ".srv") then f[..|f| - 4] else f
  }

  /** `re.sub(r'V[0-9]$', '', b)` */
  function StripVersionDigit(b: string): string
  {
    if |b| >= 2 && b[|b| - 2] == 'V' && IsDigit(b[|b| - 1]) then b[..|b| - 2] else b
  }

  /** `re.sub(r'XX$', '', b)` */
  function StripConflictMarker(b: string): string
  {
    if EndsWith(b, "XX") then b[..|b| - 2] else b
  }

  /** `re.sub(r'_t$', ' T', b, flags=re.IGNORECASE)` */
  function SeparateTSuffix(b: string): string
  {
    if |b| >= 2 && b[|b| - 2] == '_' && (b[|b| - 1] == 't' || b[|b| - 1] == 'T') then b[..|b| - 2] + " T" else b
  }

  predicate IsLowerOrDigit(c: char) { IsLower(c) || IsDigit(c) }

  /** Length of the run of upper-case letters starting at `p`. */
  function UpperRun(s: string, p: nat): (n: nat)
    requires p <= |s|
    ensures p + n <= |s|
    ensures forall i :: p <= i < p + n ==> IsUpper(s[i])
    ensures p + n < |s| ==> !IsUpper(s[p + n])
    decreases |s| - p
  {
    if p < |s| && IsUpper(s[p]) then 1 + UpperRun(s, p + 1) else 0
  }

  /** Length of the run of `[a-z0-9]` starting at `p`. */
  function LowerDigitRun(s: string, p: nat): (n: nat)
    requires p <= |s|
    ensures p + n <= |s|
    ensures forall i :: p <= i < p + n ==> IsLowerOrDigit(s[i])
    ensures p + n < |s| ==> !IsLowerOrDigit(s[p + n])
    decreases |s| - p
  {
    if p < |s| && IsLowerOrDigit(s[p]) then 1 + LowerDigitRun(s, p + 1) else 0
  }

  /**
   * Length of the token that
   * `[A-Z]{2,}(?=[A-Z][a-z]|[0-9]|$)|[A-Z]?[a-z0-9]+|[A-Z]|T`
   * matches at `p`, or 0 when nothing matches there.
   */
  function TokenAt(s: string, p: nat): (n: nat)
    requires p < |s|
    ensures p + n <= |s|
    ensures forall i :: p <= i < p + n ==> IsAlnum(s[i])
  {
    var run := UpperRun(s, p);
    if run >= 2 && (p + run == |s| || IsDigit(s[p + run])) then run
    else if run >= 3 && p + run < |s| && IsLower(s[p + run]) then run - 1
    else if IsUpper(s[p]) && p + 1 < |s| && IsLowerOrDigit(s[p + 1]) then 1 + LowerDigitRun(s, p + 1)
    else if IsLowerOrDigit(s[p]) then LowerDigitRun(s, p)
    else if IsUpper(s[p]) then 1
    else 0
  }

  predicate AllAlnum(s: string) { forall i :: 0 <= i < |s| ==> IsAlnum(s[i]) }

  /** `re.findall` of the token pattern from position `p`. */
  function TokensFrom(s: string, p: nat): (ts: seq<string>)
    requires p <= |s|
    ensures forall k :: 0 <= k < |ts| ==> ts[k] != [] && AllAlnum(ts[k])
    decreases |s| - p
  {
    if p == |s| then []
    else
      var n := TokenAt(s, p);
      if n == 0 then TokensFrom(s, p + 1) else [s[p..p + n]] + TokensFrom(s, p + n)
  }

  /** Capitalizes a token unless it is all upper case (`t.isupper()`). */
  function CapitalizeToken(t: string): (r: string)
    requires t != []
    ensures |r| == |t|
    ensures AllAlnum(t) ==> AllAlnum(r)
  {
    if IsUpperString(t) then t else Capitalize(t)
  }

  function JoinCapitalized(ts: seq<string>): (r: string)
    requires forall k :: 0 <= k < |ts| ==> ts[k] != [] && AllAlnum(ts[k])
    ensures AllAlnum(r)
  {
    if ts == [] then [] else CapitalizeToken(ts[0]) + JoinCapitalized(ts[1..])
  }

  /** The `DT` suffix for names ending in `Request` or `Response`. */
  function WithReservedSuffix(t: string): (r: string)
    ensures EndsWith(t, "Request") || EndsWith(t, "Response") ==> r == t + "DT"
    ensures !(EndsWith(t, "Request") || EndsWith(t, "Response")) ==> r == t
  {
    if EndsWith(t, "Request") || EndsWith(t, "Response") then t + "DT" else t
  }

  /** Keeps the last 63 characters of a longer name and upper-cases the new first one. */
  function TruncateLeft(t: string): (r: string)
    ensures |r| <= MaxNameLength
    ensures |t| <= MaxNameLength ==> r == t
    ensures |t| > MaxNameLength ==>
              |r| == MaxNameLength && r[1..] == t[|t| - 62..] && r[0] == UpperChar(t[|t| - 63])
    ensures AllAlnum(t) ==> AllAlnum(r)
  {
    if |t| > MaxNameLength then [UpperChar(t[|t| - 63])] + t[|t| - 62..] else t
  }

  /** `remap_fqin_to_ros_convention`: the (original, remapped) names, without tokenizing. */
  function RemapFqin(filename: string): (r: (string, string))
  {
    var base := StripInterfaceExtension(filename);
    if EndsWith(base, "DT") then (base, base)
    else (base, TruncateLeft(WithReservedSuffix(SeparateTSuffix(StripConflictMarker(StripVersionDigit(base))))))
  }

  /** The tokens of the normalised stem, capitalized and joined. */
  function JoinedTokens(base: string): (r: string)
    ensures AllAlnum(r)
  {
    var b := SeparateTSuffix(StripConflictMarker(StripVersionDigit(base)));
    JoinCapitalized(TokensFrom(b, 0))
  }

  /** `remap_filename_to_ros_convention`: the (original, remapped) names. */
  function RemapFilename(filename: string): (r: (string, string))
    ensures r.0 == StripInterfaceExtension(filename)
    ensures EndsWith(r.0, "DT") ==> r.1 == r.0
    ensures !EndsWith(r.0, "DT") ==> |r.1| <= MaxNameLength && AllAlnum(r.1)
    ensures !EndsWith(r.0, "DT") && (EndsWith(JoinedTokens(r.0), "Request") || EndsWith(JoinedTokens(r.0), "Response"))
            ==> EndsWith(r.1, "DT")
  {
    var base := StripInterfaceExtension(filename);
    if EndsWith(base, "DT") then (base, base)
    else
      var j := JoinedTokens(base);
      var t := WithReservedSuffix(j);
      assert AllAlnum(t);
      if EndsWith(j, "Request") || EndsWith(j, "Response") then
        EndsWithAppend(j, "DT");
        TruncateKeepsEnd(t, "DT");
        (base, TruncateLeft(t))
      else (base, TruncateLeft(t))
  }

  /** Every remapped name of the second kind fits the length bound and is ASCII letters and digits. */
  lemma RemapFilenameInvariant(filename: string)
    ensures EndsWith(RemapFilename(filename).1, "DT") || (|RemapFilename(filename).1| <= MaxNameLength && AllAlnum(RemapFilename(filename).1))
  {
  }

  /** The fqin remap also bounds the length and marks Request/Response names with `DT`. */
  lemma RemapFqinBound(filename: string)
    ensures var (o, t) := RemapFqin(filename);
            o == StripInterfaceExtension(filename) && (EndsWith(o, "DT") ==> t == o)
            && (!EndsWith(o, "DT") ==> |t| <= MaxNameLength)
    ensures var (o, t) := RemapFqin(filename);
            var b := SeparateTSuffix(StripConflictMarker(StripVersionDigit(o)));
            !EndsWith(o, "DT") && (EndsWith(b, "Request") || EndsWith(b, "Response")) ==> EndsWith(t, "DT")
  {
    var o := StripInterfaceExtension(filename);
    var b := SeparateTSuffix(StripConflictMarker(StripVersionDigit(o)));
    if !EndsWith(o, "DT") && (EndsWith(b, "Request") || EndsWith(b, "Response")) {
      TruncateKeepsEnd(b + "DT", "DT");
    }
  }

  /** Cutting a long name on the left keeps its last two characters. */
  lemma TruncateKeepsEnd(t: string, e: string)
    requires |e| == 2 && EndsWith(t, e)
    ensures EndsWith(TruncateLeft(t), e)
  {
    if |t| > MaxNameLength {
      var r := TruncateLeft(t);
      assert r[|r| - 2..] == r[1..][60..] == t[|t| - 2..];
    }
  }

  /** A run of `n` characters of `[a-z0-9]` ending before one that is not has length `n`. */
  lemma {:induction false} LowerDigitRunIs(s: string, p: nat, n: nat)
    requires p + n <= |s|
    requires forall i :: p <= i < p + n ==> IsLowerOrDigit(s[i])
    requires p + n < |s| ==> !IsLowerOrDigit(s[p + n])
    ensures LowerDigitRun(s, p) == n
    decreases n
  {
    if n > 0 {
      LowerDigitRunIs(s, p + 1, n - 1);
    }
  }

  /**
   * A camelCase name, lower-case letters then one capital followed by
   * lower-case letters, splits into two tokens at the capital.
   */
  lemma CamelCaseTokens(s: string, a: nat)
    requires 0 < a && a + 1 < |s|
    requires forall i :: 0 <= i < a ==> IsLower(s[i])
    requires IsUpper(s[a])
    requires forall i :: a < i < |s| ==> IsLower(s[i])
    ensures TokensFrom(s, 0) == [s[..a], s[a..]]
  {
    LowerToken(s, a);
    CapitalToken(s, a);
    TokensFromStep(s, a);
    var n := TokenAt(s, a);
    assert a + n == |s| && s[a..a + n] == s[a..];
    assert TokensFrom(s, a + n) == [];
    assert TokensFrom(s, a) == [s[a..]];
    TokensFromStep(s, 0);
    assert TokensFrom(s, 0) == [s[..a]] + TokensFrom(s, a);
  }

  lemma LowerToken(s: string, a: nat)
    requires 0 < a < |s|
    requires forall i :: 0 <= i < a ==> IsLower(s[i])
    requires IsUpper(s[a])
    ensures TokenAt(s, 0) == a
  {
    assert UpperRun(s, 0) == 0;
    LowerDigitRunIs(s, 0, a);
  }

  lemma CapitalToken(s: string, a: nat)
    requires a + 1 < |s|
    requires IsUpper(s[a])
    requires forall i :: a < i < |s| ==> IsLower(s[i])
    ensures TokenAt(s, a) == |s| - a
  {
    assert UpperRun(s, a + 1) == 0;
    assert UpperRun(s, a) == 1;
    LowerDigitRunIs(s, a + 1, |s| - a - 1);
  }

  /** A token found at `p` is the next one listed. */
  lemma TokensFromStep(s: string, p: nat)
    requires p < |s| && TokenAt(s, p) > 0
    ensures TokensFrom(s, p) == [s[p..p + TokenAt(s, p)]] + TokensFrom(s, p + TokenAt(s, p))
  {
  }

  lemma QuestionResponseTokens()
    ensures TokensFrom("questionResponse", 0) == ["question", "Response"]
  {
    var s := "questionResponse";
    assert forall i :: 0 <= i < 8 ==> IsLower(s[i]);
    assert forall i :: 8 < i < 16 ==> IsLower(s[i]);
    CamelCaseTokens(s, 8);
    assert s[..8] == "question";
    assert s[8..] == "Response";
  }

  lemma CapitalizedTokens()
    ensures CapitalizeToken("question") == "Question"
    ensures CapitalizeToken("Response") == "Response"
  {
    CapitalizedQuestion();
    CapitalizedResponse();
  }

  lemma CapitalizedQuestion()
    ensures CapitalizeToken("question") == "Question"
  {
    var s := "question";
    assert !IsUpperString(s) by {
      assert IsLower(s[0]);
    }
    var rest := "uestion";
    assert s[1..] == rest;
    assert forall i :: 0 <= i < |rest| ==> IsLower(rest[i]);
    LowerUnchanged(rest);
    assert UpperChar(s[0]) == 'Q';
    assert Capitalize(s) == ['Q'] + rest;
    assert ['Q'] + rest == s[0 := 'Q'] == "Question";
  }

  lemma CapitalizedResponse()
    ensures CapitalizeToken("Response") == "Response"
  {
    assert !IsUpperString("Response") by {
      assert IsLower("Response"[1]);
    }
    var s := "Response";
    LowerUnchanged(s[1..]);
    assert UpperChar(s[0]) == 'R';
    assert Capitalize(s) == ['R'] + s[1..];
  }

  lemma QuestionResponseConcat()
    ensures "Question" + "Response" == "QuestionResponse"
  {
    var a, b := "Question", "Response";
    assert forall i :: 0 <= i < 16 ==> (a + b)[i] == "QuestionResponse"[i];
  }

  lemma QuestionResponseJoined()
    ensures JoinedTokens("questionResponse") == "QuestionResponse"
  {
    var s := "questionResponse";
    QuestionResponseUnmarked();
    QuestionResponseTokens();
    QuestionResponseCapitalized();
    assert JoinedTokens(s) == JoinCapitalized(TokensFrom(s, 0));
  }

  lemma QuestionResponseUnmarked()
    ensures SeparateTSuffix(StripConflictMarker(StripVersionDigit("questionResponse"))) == "questionResponse"
  {
    var s := "questionResponse";
    assert StripVersionDigit(s) == s;
    assert StripConflictMarker(s) == s;
    assert SeparateTSuffix(s) == s;
  }

  lemma QuestionResponseCapitalized()
    ensures JoinCapitalized(["question", "Response"]) == "QuestionResponse"
  {
    assert AllAlnum("question") && AllAlnum("Response");
    JoinCapitalizedPair("question", "Response");
    CapitalizedTokens();
    QuestionResponseConcat();
  }

  lemma JoinCapitalizedPair(a: string, b: string)
    requires a != [] && b != [] && AllAlnum(a) && AllAlnum(b)
    ensures JoinCapitalized([a, b]) == CapitalizeToken(a) + CapitalizeToken(b)
  {
    assert [a, b][1..] == [b];
    assert [b][1..] == [];
    assert JoinCapitalized([b]) == CapitalizeToken(b) + [];
  }

  /** `questionResponse` becomes `QuestionResponseDT`. */
  lemma RemapQuestionResponse()
    ensures RemapFilename("questionResponse").1 == "QuestionResponseDT"
  {
    QuestionResponseJoined();
    var base := "questionResponse";
    assert StripInterfaceExtension(base) == base;
    assert !EndsWith(base, "DT");
    var t := "QuestionResponse";
    QuestionResponseConcat();
    EndsWithAppend("Question", "Response");
    assert WithReservedSuffix(t) == t + "DT";
    QuestionResponseDTConcat();
  }

  lemma QuestionResponseDTConcat()
    ensures "QuestionResponse" + "DT" == "QuestionResponseDT"
  {
    var a, b := "QuestionResponse", "DT";
    assert forall i :: 0 <= i < 18 ==> (a + b)[i] == "QuestionResponseDT"[i];
  }

  // ---------------------------------------------------------------------------
  // determine_ros_type_from_values

  function MinOf(s: seq<int>): (m: int)
    requires |s| > 0
    ensures m in s
    ensures forall i :: 0 <= i < |s| ==> m <= s[i]
  {
    if |s| == 1 then s[0] else var r := MinOf(s[1..]); if s[0] <= r then s[0] else r
  }

  function MaxOf(s: seq<int>): (m: int)
    requires |s| > 0
    ensures m in s
    ensures forall i :: 0 <= i < |s| ==> s[i] <= m
  {
    if |s| == 1 then s[0] else var r := MaxOf(s[1..]); if s[0] >= r then s[0] else r
  }

  /** The smallest and largest value of each integer type the enum translation can choose. */
  function IntRange(t: string): (int, int)
  {
    match t
    case "uint8" => (0, 255)
    case "uint16" => (0, 65535)
    case "uint32" => (0, 4294967295)
    case "int8" => (-128, 127)
    case "int16" => (-32768, 32767)
    case _ => (-2147483648, 2147483647)
  }

  predicate Fits(t: string, v: int) { IntRange(t).0 <= v <= IntRange(t).1 }

  /**
   * `determine_ros_type_from_values`: the narrowest unsigned type when no value
   * is negative, else the narrowest signed one.
   */
  function DetermineRosType(values: seq<int>): (t: string)
    requires |values| > 0
    ensures t in {"uint8", "uint16", "uint32", "int8", "int16", "int32"}
  {
    var lo := MinOf(values);
    var hi := MaxOf(values);
    if lo >= 0 then
      if hi <= 255 then "uint8" else if hi <= 65535 then "uint16" else "uint32"
    else if lo < -32768 || hi > 32767 then "int32"
    else if lo < -128 || hi > 127 then "int16"
    else "int8"
  }

  /**
   * The chosen type is unsigned exactly when no value is negative, and it is
   * the narrowest of its signedness: a wider type is chosen only when some
   * value does not fit the narrower one.
   */
  lemma DetermineRosTypeNarrowest(values: seq<int>)
    requires |values| > 0
    ensures var t := DetermineRosType(values);
      && (t[0] == 'u' <==> forall i :: 0 <= i < |values| ==> values[i] >= 0)
      && (t == "uint8" <==> forall i :: 0 <= i < |values| ==> 0 <= values[i] <= 255)
      && (t == "uint16" <==> (forall i :: 0 <= i < |values| ==> 0 <= values[i] <= 65535)
                             && exists i :: 0 <= i < |values| && values[i] > 255)
      && (t == "int8" <==> (exists i :: 0 <= i < |values| && values[i] < 0)
                           && forall i :: 0 <= i < |values| ==> -128 <= values[i] <= 127)
      && (t == "int16" <==> (exists i :: 0 <= i < |values| && values[i] < 0)
                            && (forall i :: 0 <= i < |values| ==> -32768 <= values[i] <= 32767)
                            && exists i :: 0 <= i < |values| && (values[i] < -128 || values[i] > 127))
  {
    var lo := MinOf(values);
    var hi := MaxOf(values);
    var a :| 0 <= a < |values| && values[a] == lo;
    var b :| 0 <= b < |values| && values[b] == hi;
  }

  /**
   * For values within the 32-bit enum range, every value fits the chosen type
   * (that no narrower type would do is `DetermineRosTypeNarrowest`).
   */
  lemma DetermineRosTypeFits(values: seq<int>)
    requires |values| > 0
    requires forall i :: 0 <= i < |values| ==> -2147483648 <= values[i] <= 2147483647
    ensures forall i :: 0 <= i < |values| ==> Fits(DetermineRosType(values), values[i])
  {
  }

  /** `{-1, 200}` needs `int16`. */
  lemma MixedSignsNeedInt16()
    ensures DetermineRosType([-1, 200]) == "int16"
  {
    assert MinOf([-1, 200]) == -1;
    assert MaxOf([-1, 200]) == 200;
  }

  // ---------------------------------------------------------------------------
  // shorten_name_simple

  /** Python's `s[:k]`, where a negative `k` counts from the end. */
  function SliceTo(s: string, k: int): (r: string)
    ensures StartsWith(s, r)
    ensures 0 <= k <= |s| ==> |r| == k
    ensures k > |s| ==> r == s
  {
    if k >= 0 then (if k <= |s| then s[..k] else s)
    else if |s| + k >= 0 then s[..|s| + k] else []
  }

  /** `shorten_name_simple`: `name` cut so that `prefix + name` fits in `maxLength`. */
  function ShortenNameSimple(name: string, prefix: string, maxLength: int): (r: string)
    ensures StartsWith(name, r)
    ensures |prefix + name| <= maxLength ==> r == name
    ensures |prefix| <= maxLength ==> |prefix + r| <= maxLength
    ensures |prefix| <= maxLength < |prefix + name| ==> |prefix + r| == maxLength
  {
    if |prefix + name| <= maxLength then name else SliceTo(name, maxLength - |prefix|)
  }

  // ---------------------------------------------------------------------------
  // extract_fixed_size_from_bytes_options, extract_primitive_byte_size__from_type:
  // the searches `\(.*KEY\)\s*=\s*(VALUE)` over a field's option text

  /** What the value group of an option search matches: `\d+` or `PBS_\w+`. */
  datatype ValueKind = Digits | PbsName

  /** Length of the greedy value group at `p`, or 0 when it does not match there. */
  function ValueAt(s: string, p: nat, kind: ValueKind): (n: nat)
    requires p <= |s|
    ensures p + n <= |s|
    ensures kind == Digits ==> AllDigits(s[p..p + n])
    ensures kind == PbsName && n > 0 ==> n > 4 && s[p..p + 4] == "PBS_"
  {
    match kind
    case Digits => Run(s, p, IsDigit)
    case PbsName =>
      if OccursAt(s, "PBS_", p) && Run(s, p + 4, IsWordChar) > 0 then 4 + Run(s, p + 4, IsWordChar) else 0
  }

  /** `KEY\)\s*=\s*(VALUE)` matched at `q`: the value text. */
  function KeyValueAt(s: string, q: nat, key: string, kind: ValueKind): (v: Option<string>)
    requires q <= |s|
    ensures v.Some? ==> OccursAt(s, key + ")", q) && v.value != []
  {
    var k := key + ")";
    if !OccursAt(s, k, q) then None else EqualsValueAt(s, q + |k|, kind)
  }

  /** `\s*=\s*(VALUE)` at `e`: the value text. */
  function EqualsValueAt(s: string, e: nat, kind: ValueKind): (v: Option<string>)
    requires e <= |s|
    ensures v.Some? ==> v.value != []
  {
    var eq := e + SpaceRun(s, e);
    if eq == |s| || s[eq] != '=' then None else SpacedValueAt(s, eq + 1, kind)
  }

  /** `\s*(VALUE)` at `b`: the value text. */
  function SpacedValueAt(s: string, b: nat, kind: ValueKind): (v: Option<string>)
    requires b <= |s|
    ensures v.Some? ==> v.value != []
  {
    var p := b + SpaceRun(s, b);
    var n := ValueAt(s, p, kind);
    if n == 0 then None else Some(s[p..p + n])
  }

  /** A greedy `.*` ending at `q` or before, down to `lo`: the longest one after which the rest matches. */
  function LongestKeyValue(s: string, lo: nat, q: nat, key: string, kind: ValueKind): (v: Option<string>)
    requires lo <= q <= |s|
    ensures v.Some? ==> v.value != [] && Contains(s, key + ")")
    decreases q - lo
  {
    var v := KeyValueAt(s, q, key, kind);
    if v.Some? then assert OccursAt(s, key + ")", q); v else if q == lo then None else LongestKeyValue(s, lo, q - 1, key, kind)
  }

  /** `re.search(r'\(.*KEY\)\s*=\s*(VALUE)', s[p..])`: the value group of the leftmost match. */
  function OptionSearch(s: string, p: nat, key: string, kind: ValueKind): (v: Option<string>)
    requires p <= |s|
    ensures v.Some? ==> v.value != [] && Contains(s, key + ")")
    decreases |s| - p
  {
    if p == |s| then None
    else
      var v := LongestKeyValue(s, p + 1, LineEnd(s, p + 1), key, kind);
      if s[p] == '(' && v.Some? then v else OptionSearch(s, p + 1, key, kind)
  }

  /** The value group of an option search is made of what its kind allows. */
  lemma {:induction false} OptionSearchValue(s: string, p: nat, key: string, kind: ValueKind)
    requires p <= |s|
    ensures var v := OptionSearch(s, p, key, kind);
      v.Some? ==> (kind == Digits ==> AllDigits(v.value)) && (kind == PbsName ==> StartsWith(v.value, "PBS_"))
    decreases |s| - p
  {
    if p < |s| {
      var v := LongestKeyValue(s, p + 1, LineEnd(s, p + 1), key, kind);
      if s[p] == '(' && v.Some? {
        LongestKeyValueKind(s, p + 1, LineEnd(s, p + 1), key, kind);
      } else {
        OptionSearchValue(s, p + 1, key, kind);
      }
    }
  }

  lemma {:induction false} LongestKeyValueKind(s: string, lo: nat, q: nat, key: string, kind: ValueKind)
    requires lo <= q <= |s|
    ensures var v := LongestKeyValue(s, lo, q, key, kind);
      v.Some? ==> (kind == Digits ==> AllDigits(v.value)) && (kind == PbsName ==> StartsWith(v.value, "PBS_"))
    decreases q - lo
  {
    KeyValueAtKind(s, q, key, kind);
    if KeyValueAt(s, q, key, kind).None? && q > lo {
      LongestKeyValueKind(s, lo, q - 1, key, kind);
    }
  }

  lemma KeyValueAtKind(s: string, q: nat, key: string, kind: ValueKind)
    requires q <= |s|
    ensures var v := KeyValueAt(s, q, key, kind);
      v.Some? ==> (kind == Digits ==> AllDigits(v.value)) && (kind == PbsName ==> StartsWith(v.value, "PBS_"))
  {
    var k := key + ")";
    if OccursAt(s, k, q) {
      EqualsValueKind(s, q + |k|, kind);
    }
  }

  lemma EqualsValueKind(s: string, e: nat, kind: ValueKind)
    requires e <= |s|
    ensures var v := EqualsValueAt(s, e, kind);
      v.Some? ==> (kind == Digits ==> AllDigits(v.value)) && (kind == PbsName ==> StartsWith(v.value, "PBS_"))
  {
    var eq := e + SpaceRun(s, e);
    if eq < |s| && s[eq] == '=' {
      SpacedValueKind(s, eq + 1, kind);
    }
  }

  lemma SpacedValueKind(s: string, b: nat, kind: ValueKind)
    requires b <= |s|
    ensures var v := SpacedValueAt(s, b, kind);
      v.Some? ==> (kind == Digits ==> AllDigits(v.value)) && (kind == PbsName ==> StartsWith(v.value, "PBS_"))
  {
    var p := b + SpaceRun(s, b);
    var n := ValueAt(s, p, kind);
    if n > 0 && kind == PbsName {
      assert s[p..p + n][..4] == s[p..p + 4];
    }
  }

  /** `extract_fixed_size_from_bytes_options`: the `variable_type_max_size` option, as a number. */
  function FixedSizeOfBytes(options: string): (r: Option<nat>)
    ensures r.Some? ==> Contains(options, "variable_type_max_size)")
  {
    var v := OptionSearch(options, 0, "variable_type_max_size", Digits);
    OptionSearchValue(options, 0, "variable_type_max_size", Digits);
    assert "variable_type_max_size" + ")" == "variable_type_max_size)";
    if v.Some? then Some(ParseNat(v.value)) else None
  }

  /** `extract_primitive_byte_size__from_type`: the `primitive_byte_size` option, a `PBS_...` name. */
  function PrimitiveByteSize(options: string): (r: Option<string>)
    ensures r.Some? ==> StartsWith(r.value, "PBS_") && Contains(options, "primitive_byte_size)")
  {
    OptionSearchValue(options, 0, "primitive_byte_size", PbsName);
    assert "primitive_byte_size" + ")" == "primitive_byte_size)";
    OptionSearch(options, 0, "primitive_byte_size", PbsName)
  }

  /** The text a well-formed option value has: digits, or `PBS_` and word characters. */
  predicate WellFormedValue(v: string, kind: ValueKind)
  {
    match kind
    case Digits => v != [] && AllDigits(v)
    case PbsName => |v| > 4 && v[..4] == "PBS_" && forall i :: 4 <= i < |v| ==> IsWordChar(v[i])
  }

  /**
   * An option written `(...KEY) = VALUE` on one line is found, and its value
   * is the one written.
   */
  lemma OptionFound(mid: string, key: string, v: string, kind: ValueKind)
    requires '\n' !in mid && '\n' !in key && ')' !in key
    requires WellFormedValue(v, kind)
    ensures OptionSearch("(" + mid + key + ") = " + v, 0, key, kind) == Some(v)
  {
    var s := "(" + mid + key + ") = " + v;
    var q0 := 1 + |mid|;
    var e := q0 + |key| + 1;
    ValueChars(v, kind);
    OptionLayout(s, mid, key, v);
    OneLine(s, mid, key, v);
    NoKeyAfterClose(s, q0 + |key|, q0, key, kind);
    ValueAtWhole(s, e + 3, v, kind);
    KeyValueAtOption(s, q0, e, e + 3, key, v, kind);
    SearchFromParen(s, q0, key, kind, v);
  }

  /** A search starting at `(`, whose line runs to the end, finds the last place the pattern continues. */
  lemma SearchFromParen(s: string, q0: nat, key: string, kind: ValueKind, v: string)
    requires 1 <= q0 <= |s| && s[0] == '(' && LineEnd(s, 1) == |s|
    requires forall j :: q0 < j <= |s| ==> KeyValueAt(s, j, key, kind).None?
    requires KeyValueAt(s, q0, key, kind) == Some(v)
    ensures OptionSearch(s, 0, key, kind) == Some(v)
  {
    LongestSkips(s, 1, |s|, q0, key, kind);
    assert LongestKeyValue(s, 1, q0, key, kind) == Some(v);
  }

  /** With no `)` after position `c`, the pattern continues at no key position past `c - |key|`. */
  lemma NoKeyAfterClose(s: string, c: nat, q0: nat, key: string, kind: ValueKind)
    requires q0 + |key| == c < |s|
    requires forall i :: c < i < |s| ==> s[i] != ')'
    ensures forall j :: q0 < j <= |s| ==> KeyValueAt(s, j, key, kind).None?
  {
    forall j | q0 < j <= |s| ensures KeyValueAt(s, j, key, kind).None? {
      if j + |key| + 1 <= |s| {
        assert s[j..j + |key| + 1][|key|] == s[j + |key|] != ')';
      }
      assert !OccursAt(s, key + ")", j);
    }
  }

  /** A well-formed value holds no line break, no `)` and no white space. */
  lemma ValueChars(v: string, kind: ValueKind)
    requires WellFormedValue(v, kind)
    ensures forall i :: 0 <= i < |v| ==> v[i] != '\n' && v[i] != ')' && !IsSpace(v[i])
  {
    forall i | 0 <= i < |v| ensures v[i] != '\n' && v[i] != ')' && !IsSpace(v[i]) {
      if kind == PbsName && i < 4 {
        assert v[i] == v[..4][i] == "PBS_"[i];
      }
    }
  }

  /** Where the pieces of `(MID KEY) = VALUE` sit. */
  lemma OptionLayout(s: string, mid: string, key: string, v: string)
    requires s == "(" + mid + key + ") = " + v
    ensures s[0] == '('
    ensures forall i :: 1 <= i < 1 + |mid| ==> s[i] == mid[i - 1]
    ensures forall i :: 1 + |mid| <= i < 1 + |mid| + |key| ==> s[i] == key[i - 1 - |mid|]
    ensures OccursAt(s, key + ")", 1 + |mid|)
    ensures var e := 1 + |mid| + |key|;
      s[e] == ')' && s[e + 1] == ' ' && s[e + 2] == '=' && s[e + 3] == ' ' && s[e + 4..] == v
    ensures |s| == 5 + |mid| + |key| + |v|
    ensures forall i :: 5 + |mid| + |key| <= i < |s| ==> s[i] == v[i - 5 - |mid| - |key|]
  {
    assert s == ("(" + mid) + (key + ")") + " = " + v;
    assert s[1 + |mid|..1 + |mid| + |key| + 1] == key + ")";
  }

  /** The option text is one line, so the greedy `.*` may reach its end. */
  lemma OneLine(s: string, mid: string, key: string, v: string)
    requires s == "(" + mid + key + ") = " + v
    requires '\n' !in mid && '\n' !in key
    requires forall i :: 0 <= i < |v| ==> v[i] != '\n' && v[i] != ')' && !IsSpace(v[i])
    ensures LineEnd(s, 1) == |s|
    ensures forall i :: 1 + |mid| + |key| < i < |s| ==> s[i] != ')'
  {
    OptionLayout(s, mid, key, v);
    forall i | 1 <= i < |s| ensures s[i] != '\n' {
      if i < 1 + |mid| {
        assert mid[i - 1] in mid;
      } else if i < 1 + |mid| + |key| {
        assert key[i - 1 - |mid|] in key;
      }
    }
  }

  /** At the key, the pattern continues with ` = ` and takes the whole value. */
  lemma KeyValueAtOption(s: string, q: nat, e: nat, p: nat, key: string, v: string, kind: ValueKind)
    requires e == q + |key| + 1 && p == e + 3 && p + |v| == |s| && v != []
    requires OccursAt(s, key + ")", q)
    requires s[e] == ' ' && s[e + 1] == '=' && s[e + 2] == ' ' && !IsSpace(s[p])
    requires s[p..] == v && ValueAt(s, p, kind) == |v|
    ensures KeyValueAt(s, q, key, kind) == Some(v)
  {
    KeyValueAtSpaced(s, q, e, key, kind);
    SpacedValueWhole(s, e + 2, p, v, kind);
  }

  /** At the key, the pattern continues with ` =` and then the spaced value. */
  lemma KeyValueAtSpaced(s: string, q: nat, e: nat, key: string, kind: ValueKind)
    requires e == q + |key| + 1 && e + 2 < |s| && OccursAt(s, key + ")", q)
    requires s[e] == ' ' && s[e + 1] == '='
    ensures KeyValueAt(s, q, key, kind) == SpacedValueAt(s, e + 2, kind)
  {
    SpaceRunOne(s, e);
    KeyValueAtEquals(s, q, e, key, kind);
    EqualsThenSpaced(s, e, kind);
  }

  lemma KeyValueAtEquals(s: string, q: nat, e: nat, key: string, kind: ValueKind)
    requires q <= |s| && OccursAt(s, key + ")", q) && e == q + |key| + 1
    ensures KeyValueAt(s, q, key, kind) == EqualsValueAt(s, e, kind)
  {
    assert |key + ")"| == |key| + 1;
  }

  lemma EqualsThenSpaced(s: string, e: nat, kind: ValueKind)
    requires e + 2 <= |s| && SpaceRun(s, e) == 1 && s[e + 1] == '='
    ensures EqualsValueAt(s, e, kind) == SpacedValueAt(s, e + 2, kind)
  {
  }

  lemma SpacedValueWhole(s: string, b: nat, p: nat, v: string, kind: ValueKind)
    requires p == b + 1 && p + |v| == |s| && v != []
    requires s[b] == ' ' && !IsSpace(s[p])
    requires s[p..] == v && ValueAt(s, p, kind) == |v|
    ensures SpacedValueAt(s, b, kind) == Some(v)
  {
    SpaceRunOne(s, b);
    assert s[p..p + |v|] == v;
  }

  lemma SpaceRunOne(s: string, i: nat)
    requires i + 1 < |s| && IsSpace(s[i]) && !IsSpace(s[i + 1])
    ensures SpaceRun(s, i) == 1
  {
  }

  /** A well-formed value that runs to the end of the text is taken whole. */
  lemma ValueAtWhole(s: string, p: nat, v: string, kind: ValueKind)
    requires p <= |s| && s[p..] == v && WellFormedValue(v, kind)
    ensures ValueAt(s, p, kind) == |v|
  {
    match kind {
      case Digits =>
        RunToEnd(s, p, IsDigit);
      case PbsName =>
        assert s[p..p + 4] == v[..4] == "PBS_";
        RunToEnd(s, p + 4, IsWordChar);
    }
  }

  /** A class that holds up to the end of the text is run to the end. */
  lemma RunToEnd(s: string, p: nat, inClass: char -> bool)
    requires p <= |s| && forall i :: p <= i < |s| ==> inClass(s[i])
    ensures Run(s, p, inClass) == |s| - p
  {
  }

  /** One step of the greedy search down past a position where the pattern does not continue. */
  lemma LongestStep(s: string, lo: nat, q: nat, key: string, kind: ValueKind)
    requires lo < q <= |s| && KeyValueAt(s, q, key, kind).None?
    ensures LongestKeyValue(s, lo, q, key, kind) == LongestKeyValue(s, lo, q - 1, key, kind)
  {
  }

  /** The greedy search skips the positions above `q0` where the pattern does not continue. */
  lemma LongestSkips(s: string, lo: nat, q: nat, q0: nat, key: string, kind: ValueKind)
    requires lo <= q0 <= q <= |s|
    requires forall j :: q0 < j <= q ==> KeyValueAt(s, j, key, kind).None?
    ensures LongestKeyValue(s, lo, q, key, kind) == LongestKeyValue(s, lo, q0, key, kind)
  {
    var k := q0;
    while k < q
      invariant q0 <= k <= q
      invariant LongestKeyValue(s, lo, k, key, kind) == LongestKeyValue(s, lo, q0, key, kind)
    {
      LongestStep(s, lo, k + 1, key, kind);
      k := k + 1;
    }
  }

  /** A `variable_type_max_size` option written with digits gives that number as the size. */
  lemma FixedSizeFound(options: string, mid: string, digits: string)
    requires options == "(" + mid + "variable_type_max_size) = " + digits
    requires '\n' !in mid && digits != [] && AllDigits(digits)
    ensures FixedSizeOfBytes(options) == Some(ParseNat(digits))
  {
    assert "(" + mid + "variable_type_max_size" + ") = " + digits == options;
    OptionFound(mid, "variable_type_max_size", digits, Digits);
  }

  /** A `primitive_byte_size` option written `PBS_WORD` gives that name. */
  lemma PrimitiveByteSizeFound(options: string, mid: string, word: string)
    requires options == "(" + mid + "primitive_byte_size) = PBS_" + word
    requires '\n' !in mid && word != [] && forall i :: 0 <= i < |word| ==> IsWordChar(word[i])
    ensures PrimitiveByteSize(options) == Some("PBS_" + word)
  {
    var v := "PBS_" + word;
    assert "(" + mid + "primitive_byte_size" + ") = " + v == options;
    assert v[..4] == "PBS_";
    assert forall i :: 4 <= i < |v| ==> v[i] == word[i - 4];
    OptionFound(mid, "primitive_byte_size", v, PbsName);
  }

  /** Options that open no parenthesis name no size. */
  lemma {:induction false} NoParenthesisNoOption(s: string, p: nat, key: string, kind: ValueKind)
    requires p <= |s| && '(' !in s[p..]
    ensures OptionSearch(s, p, key, kind).None?
    decreases |s| - p
  {
    if p < |s| {
      assert s[p] == s[p..][0];
      assert s[p + 1..] == s[p..][1..];
      NoParenthesisNoOption(s, p + 1, key, kind);
    }
  }

  // ---------------------------------------------------------------------------
  // occupied

  /** `occupied`: `name` is registered to a hint other than `hint`. */
  predicate Occupied(name: string, hint: string, registry: map<string, string>)
  {
    name in registry && registry[name] != hint
  }

  /**
   * A name not yet generated is free; once registered for a hint it stays
   * free for that hint and is taken for every other one.
   */
  lemma OccupiedByRegistration(name: string, hint: string, other: string, registry: map<string, string>)
    ensures name !in registry ==> !Occupied(name, hint, registry)
    ensures !Occupied(name, hint, registry[name := hint])
    ensures other != hint ==> Occupied(name, other, registry[name := hint])
  {
  }

  // ---------------------------------------------------------------------------
  // load_projects_filter

  /** One line of the projects file: stripped, comment removed; None for a line that names no project. */
  function ProjectOfLine(raw: string): (r: Option<string>)
    ensures r.Some? ==> r.value != [] && '#' !in r.value && Strip(r.value) == r.value
  {
    var line := Strip(raw);
    if line == [] || line[0] == '#' then None
    else
      var cut := if '#' in line then Strip(Before(line, '#')) else line;
      StripIdempotent(line);
      StripIdempotent(Before(line, '#'));
      if cut == [] then None else Some(cut)
  }

  lemma StripIdempotent(s: string)
    ensures Strip(Strip(s)) == Strip(s)
  {
  }

  /** The stripped comment cut of a line that does not start with `#` is never empty. */
  lemma ProjectLineCutNonEmpty(raw: string)
    requires Strip(raw) != [] && Strip(raw)[0] != '#'
    ensures ProjectOfLine(raw).Some?
  {
    var line := Strip(raw);
    if '#' in line {
      var b := Before(line, '#');
      assert b != [] && b[0] == line[0];
      assert LStrip(b) == b;
      assert RStrip(b) != [] by {
        RStripKeepsFirst(b);
      }
    }
  }

  lemma {:induction false} RStripKeepsFirst(s: string)
    requires s != [] && !IsSpace(s[0])
    ensures RStrip(s) != []
  {
    if IsSpace(s[|s| - 1]) {
      RStripKeepsFirst(s[..|s| - 1]);
    }
  }

  /** The project names of the lines, in file order, before de-duplication. */
  function ProjectsOf(lines: seq<string>): seq<string>
  {
    if lines == [] then []
    else
      var p := ProjectOfLine(lines[0]);
      (if p.Some? then [p.value] else []) + ProjectsOf(lines[1..])
  }

  /**
   * `load_projects_filter`: the project names of the file, first occurrence
   * kept; a missing file gives none. `file` is None when the file does not exist.
   */
  method LoadProjectsFilter(file: Option<seq<string>>) returns (items: seq<string>)
    ensures file.None? ==> items == []
    ensures file.Some? ==> items == Dedup(ProjectsOf(file.value))
  {
    items := [];
    if file.None? {
      return;
    }
    var lines := file.value;
    var seen: set<string> := {};
    var i := 0;
    while i < |lines|
      invariant 0 <= i <= |lines|
      invariant items + DedupFrom(ProjectsOf(lines[i..]), seen) == Dedup(ProjectsOf(lines))
      invariant forall x :: x in seen <==> x in items
    {
      var p := ProjectOfLine(lines[i]);
      ProjectsDedupStep(lines, i, seen, items, Dedup(ProjectsOf(lines)));
      if p.Some? && p.value !in seen {
        seen := seen + {p.value};
        items := items + [p.value];
      }
      i := i + 1;
    }
    assert lines[i..] == [];
  }

  /** One line of the filter's loop: its project is added when not yet seen, and the rest is deduplicated. */
  lemma ProjectsDedupStep(lines: seq<string>, i: nat, seen: set<string>, items: seq<string>, whole: seq<string>)
    requires i < |lines|
    requires items + DedupFrom(ProjectsOf(lines[i..]), seen) == whole
    ensures var p := ProjectOfLine(lines[i]);
      if p.Some? && p.value !in seen then (items + [p.value]) + DedupFrom(ProjectsOf(lines[i + 1..]), seen + {p.value}) == whole
      else items + DedupFrom(ProjectsOf(lines[i + 1..]), seen) == whole
  {
    var p := ProjectOfLine(lines[i]);
    var rest := ProjectsOf(lines[i + 1..]);
    ProjectsOfStep(lines, i);
    DedupFromStep(p, rest, seen);
    if p.Some? && p.value !in seen {
      AppendAssoc(items, [p.value], DedupFrom(rest, seen + {p.value}));
    }
  }

  lemma ProjectsOfStep(lines: seq<string>, i: nat)
    requires i < |lines|
    ensures var p := ProjectOfLine(lines[i]);
      ProjectsOf(lines[i..]) == (if p.Some? then [p.value] else []) + ProjectsOf(lines[i + 1..])
  {
    assert lines[i..][0] == lines[i];
    assert lines[i..][1..] == lines[i + 1..];
  }

  lemma AppendAssoc(a: seq<string>, b: seq<string>, c: seq<string>)
    ensures a + (b + c) == (a + b) + c
  {
  }

  /** The filter lists each project once, and lists exactly the projects named in the file. */
  lemma ProjectsFilterProperties(lines: seq<string>)
    ensures NoDuplicates(Dedup(ProjectsOf(lines)))
    ensures forall x :: x in Dedup(ProjectsOf(lines)) <==> exists i :: 0 <= i < |lines| && ProjectOfLine(lines[i]) == Some(x)
  {
    DedupProperties(ProjectsOf(lines));
    ProjectsOfMembers(lines);
  }

  lemma {:induction false} ProjectsOfMembers(lines: seq<string>)
    ensures forall x :: x in ProjectsOf(lines) <==> exists i :: 0 <= i < |lines| && ProjectOfLine(lines[i]) == Some(x)
  {
    if lines != [] {
      ProjectsOfMembers(lines[1..]);
      forall x | (exists i :: 0 <= i < |lines| && ProjectOfLine(lines[i]) == Some(x))
        ensures x in ProjectsOf(lines)
      {
        var i :| 0 <= i < |lines| && ProjectOfLine(lines[i]) == Some(x);
        if i > 0 {
          assert ProjectOfLine(lines[1..][i - 1]) == Some(x);
        }
      }
    }
  }

  // ---------------------------------------------------------------------------
  // Manifest records

  /**
   * A manifest record: the keys `ros_filename`, `topic_name`, `event_name` and
   * `proto_file`, each None when the record lacks it.
   */
  datatype Record = Record(rosFilename: Option<string>, topicName: Option<string>,
                           eventName: Option<string>, protoFile: Option<string>)

  /** `rec.get(key, "")` */
  function GetOr(o: Option<string>): string
  {
    if o.Some? then o.value else []
  }

  /** One entry of `apply_remap_on_json`: the remapped stem and `.msg`, or `.srv` for any other name. */
  function RemapRecord(e: Record): (r: Record)
    ensures r.topicName == e.topicName && r.eventName == e.eventName && r.protoFile == e.protoFile
    ensures r.rosFilename.Some? <==> e.rosFilename.Some?
    ensures e.rosFilename.Some? ==>
      r.rosFilename.value == RemapFilename(e.rosFilename.value).1 + (if EndsWith(e.rosFilename.value, ".msg") then ".msg" else ".srv")
  {
    if e.rosFilename.Some? then
      var ros := e.rosFilename.value;
      var ext := if EndsWith(ros, ".msg") then ".msg" else ".srv";
      e.(rosFilename := Some(RemapFilename(ros).1 + ext))
    else e
  }

  /** `apply_remap_on_json`: every record's `ros_filename` remapped in place. */
  method ApplyRemapOnJson(data: array<Record>)
    modifies data
    ensures forall i :: 0 <= i < data.Length ==> data[i] == RemapRecord(old(data[i]))
  {
    var i := 0;
    while i < data.Length
      invariant 0 <= i <= data.Length
      invariant forall k :: 0 <= k < i ==> data[k] == RemapRecord(old(data[k]))
      invariant forall k :: i <= k < data.Length ==> data[k] == old(data[k])
    {
      data[i] := RemapRecord(data[i]);
      i := i + 1;
    }
  }

  /** After the remap every file name ends in `.msg` or `.srv`, and a `.msg` name keeps its extension. */
  lemma RemapRecordExtension(e: Record)
    requires e.rosFilename.Some?
    ensures EndsWith(RemapRecord(e).rosFilename.value, ".msg") || EndsWith(RemapRecord(e).rosFilename.value, ".srv")
    ensures EndsWith(e.rosFilename.value, ".msg") ==> EndsWith(RemapRecord(e).rosFilename.value, ".msg")
  {
    var ros := e.rosFilename.value;
    var stem := RemapFilename(ros).1;
    var ext := if EndsWith(ros, ".msg") then ".msg" else ".srv";
    assert (stem + ext)[|stem + ext| - 4..] == ext;
  }

  // ---------------------------------------------------------------------------
  // find_and_prefix_ros_filename_duplicates (in memory)

  /** `_strip_ext`: the stem and the `.msg`/`.srv` extension in any case, or the name and "". */
  function StripExt(name: string): (r: (string, string))
    ensures r.0 + r.1 == name
    ensures r.1 == [] || |r.1| == 4
  {
    if |name| >= 4 && name[|name| - 4] == '.' && Lower(name[|name| - 3..]) in {"msg", "srv"} then
      (name[..|name| - 4], name[|name| - 4..])
    else (name, [])
  }

  /** A record of topic `t` that takes part in the grouping: it has a topic and a file name. */
  predicate InTopic(r: Record, t: string)
  {
    t != [] && GetOr(r.topicName) == t && GetOr(r.rosFilename) != []
  }

  /** The (ros_filename, proto_file) pair a record contributes to its group. */
  function Pair(r: Record): (string, string)
  {
    (GetOr(r.rosFilename), GetOr(r.protoFile))
  }

  /** `by_topic`: the pairs of the grouped records, per topic, in order. */
  function ByTopic(data: seq<Record>): (m: map<string, seq<(string, string)>>)
  {
    if data == [] then map[]
    else
      var m := ByTopic(DropLast(data));
      var r := data[|data| - 1];
      var t := GetOr(r.topicName);
      if InTopic(r, t) then m[t := (if t in m then m[t] else []) + [Pair(r)]]
      else m
  }

  /** More than one distinct file name in the group. */
  predicate HasDistinctNames(records: seq<(string, string)>)
  {
    exists i, j :: 0 <= i < |records| && 0 <= j < |records| && records[i].0 != records[j].0
  }

  /** `_has_at_least_one_acro_name`: some stem equals the acronym of its proto file followed by the topic. */
  predicate HasAcronymName(records: seq<(string, string)>, topic: string)
  {
    exists i :: 0 <= i < |records| && IsAcronymName(records[i], topic)
  }

  predicate IsAcronymName(p: (string, string), topic: string)
  {
    StripExt(p.0).0 == HintToAcronym(p.1) + topic
  }

  /** The topics of `duplicates`. */
  function DuplicateTopics(data: seq<Record>): set<string>
  {
    var m := ByTopic(data);
    set t | t in m && HasDistinctNames(m[t]) && HasAcronymName(m[t], t)
  }

  /** The new file name of one record, or None when it stays as it is. */
  function PrefixedName(r: Record, dups: set<string>): (n: Option<string>)
  {
    var topic := GetOr(r.topicName);
    var ros := GetOr(r.rosFilename);
    if topic !in dups || ros == [] then None
    else
      var (base, ext) := StripExt(ros);
      if base != topic then None
      else
        var nr := HintToAcronym(GetOr(r.protoFile)) + base + (if ext == [] then ".msg" else ext);
        if nr != ros then Some(nr) else None
  }

  /** One record after reconciliation. */
  function Reconciled(r: Record, dups: set<string>): Record
  {
    var n := PrefixedName(r, dups);
    if n.Some? then r.(rosFilename := Some(n.value)) else r
  }

  /** The (old, new, proto_file) triple of a renamed record; none for a record that stays. */
  function ChangeOf(r: Record, dups: set<string>): seq<(string, string, string)>
  {
    var n := PrefixedName(r, dups);
    if n.Some? then [(GetOr(r.rosFilename), n.value, GetOr(r.protoFile))] else []
  }

  /** The (old, new, proto_file) triples of the renamed records, in order. */
  function Changes(data: seq<Record>, dups: set<string>): seq<(string, string, string)>
  {
    if data == [] then [] else Changes(DropLast(data), dups) + ChangeOf(data[|data| - 1], dups)
  }

  /** The first pass: groups the records by topic. */
  method GroupByTopic(data: array<Record>) returns (byTopic: map<string, seq<(string, string)>>)
    ensures byTopic == ByTopic(data[..])
  {
    byTopic := map[];
    var i := 0;
    while i < data.Length
      invariant 0 <= i <= data.Length
      invariant byTopic == ByTopic(data[..i])
    {
      assert DropLast(data[..i + 1]) == data[..i];
      var rec := data[i];
      var topic := GetOr(rec.topicName);
      var ros := GetOr(rec.rosFilename);
      if topic != [] && ros != [] {
        var group := if topic in byTopic then byTopic[topic] else [];
        byTopic := byTopic[topic := group + [(ros, GetOr(rec.protoFile))]];
      }
      i := i + 1;
    }
    assert data[..i] == data[..];
  }

  /** The second pass: prefixes in place the records of the duplicated topics. */
  method PrefixRecords(data: array<Record>, duplicates: set<string>) returns (changes: seq<(string, string, string)>)
    modifies data
    ensures forall i :: 0 <= i < data.Length ==> data[i] == Reconciled(old(data[i]), duplicates)
    ensures changes == Changes(old(data[..]), duplicates)
  {
    ghost var original := data[..];
    changes := [];
    var i := 0;
    while i < data.Length
      invariant 0 <= i <= data.Length
      invariant forall k :: 0 <= k < i ==> data[k] == Reconciled(original[k], duplicates)
      invariant forall k :: i <= k < data.Length ==> data[k] == original[k]
      invariant changes == Changes(original[..i], duplicates)
    {
      assert DropLast(original[..i + 1]) == original[..i];
      var change := PrefixRecord(data, i, duplicates);
      changes := changes + change;
      i := i + 1;
    }
    assert original[..i] == original;
  }

  /** One record of the second pass: renamed in place when its prefixed name differs. */
  method PrefixRecord(data: array<Record>, i: nat, duplicates: set<string>) returns (change: seq<(string, string, string)>)
    requires i < data.Length
    modifies data
    ensures data[i] == Reconciled(old(data[i]), duplicates)
    ensures forall k :: 0 <= k < data.Length && k != i ==> data[k] == old(data[k])
    ensures change == ChangeOf(old(data[i]), duplicates)
  {
    var rec := data[i];
    var n := PrefixedName(rec, duplicates);
    change := [];
    if n.Some? {
      data[i] := rec.(rosFilename := Some(n.value));
      change := [(GetOr(rec.rosFilename), n.value, GetOr(rec.protoFile))];
    }
  }

  /**
   * `find_and_prefix_ros_filename_duplicates`, without reading or writing the
   * manifest and without renaming files: prefixes in place the records that
   * clash with an acronym-prefixed sibling of the same topic.
   */
  method FindAndPrefixDuplicates(data: array<Record>) returns (changes: seq<(string, string, string)>)
    modifies data
    ensures forall i :: 0 <= i < data.Length ==> data[i] == Reconciled(old(data[i]), DuplicateTopics(old(data[..])))
    ensures changes == Changes(old(data[..]), DuplicateTopics(old(data[..])))
  {
    var byTopic := GroupByTopic(data);
    var duplicates := set t | t in byTopic && HasDistinctNames(byTopic[t]) && HasAcronymName(byTopic[t], t);
    assert duplicates == DuplicateTopics(data[..]);
    changes := PrefixRecords(data, duplicates);
  }

  /** A group of `by_topic` holds exactly the pairs of the records of that topic. */
  lemma {:induction false} ByTopicMembers(data: seq<Record>, t: string)
    ensures t in ByTopic(data) <==> exists i :: 0 <= i < |data| && InTopic(data[i], t)
    ensures t in ByTopic(data) ==>
      forall p :: p in ByTopic(data)[t] <==> exists i :: 0 <= i < |data| && InTopic(data[i], t) && Pair(data[i]) == p
  {
    if data != [] {
      var front := DropLast(data);
      ByTopicMembers(front, t);
      assert forall i :: 0 <= i < |front| ==> front[i] == data[i];
      var last := |data| - 1;
      if t in ByTopic(data) {
        forall p ensures p in ByTopic(data)[t] <==> exists i :: 0 <= i < |data| && InTopic(data[i], t) && Pair(data[i]) == p {
          if exists i :: 0 <= i < |data| && InTopic(data[i], t) && Pair(data[i]) == p {
            var i :| 0 <= i < |data| && InTopic(data[i], t) && Pair(data[i]) == p;
            if i < last {
              assert InTopic(front[i], t) && Pair(front[i]) == p;
            }
          }
        }
      }
    }
  }

  lemma GroupHasRecord(data: seq<Record>, t: string, p: (string, string))
    requires t in ByTopic(data) && p in ByTopic(data)[t]
    ensures exists i :: 0 <= i < |data| && InTopic(data[i], t) && Pair(data[i]) == p
  {
    ByTopicMembers(data, t);
  }

  lemma RecordInGroup(data: seq<Record>, t: string, i: nat)
    requires i < |data| && InTopic(data[i], t)
    ensures t in ByTopic(data) && Pair(data[i]) in ByTopic(data)[t]
  {
    ByTopicMembers(data, t);
  }

  predicate TopicHasDistinctNames(data: seq<Record>, t: string)
  {
    exists i, j :: 0 <= i < |data| && 0 <= j < |data| && InTopic(data[i], t) && InTopic(data[j], t)
                   && data[i].rosFilename != data[j].rosFilename
  }

  predicate TopicHasAcronymName(data: seq<Record>, t: string)
  {
    exists k :: 0 <= k < |data| && InTopic(data[k], t) && IsAcronymName(Pair(data[k]), t)
  }

  lemma DistinctNamesFromGroup(data: seq<Record>, t: string)
    requires t in ByTopic(data) && HasDistinctNames(ByTopic(data)[t])
    ensures TopicHasDistinctNames(data, t)
  {
    var g := ByTopic(data)[t];
    var a, b :| 0 <= a < |g| && 0 <= b < |g| && g[a].0 != g[b].0;
    GroupHasRecord(data, t, g[a]);
    GroupHasRecord(data, t, g[b]);
    var i :| 0 <= i < |data| && InTopic(data[i], t) && Pair(data[i]) == g[a];
    var j :| 0 <= j < |data| && InTopic(data[j], t) && Pair(data[j]) == g[b];
    assert data[i].rosFilename != data[j].rosFilename;
  }

  lemma DistinctNamesToGroup(data: seq<Record>, t: string)
    requires TopicHasDistinctNames(data, t)
    ensures t in ByTopic(data) && HasDistinctNames(ByTopic(data)[t])
  {
    var i, j :| 0 <= i < |data| && 0 <= j < |data| && InTopic(data[i], t) && InTopic(data[j], t)
                && data[i].rosFilename != data[j].rosFilename;
    RecordInGroup(data, t, i);
    RecordInGroup(data, t, j);
    var g := ByTopic(data)[t];
    var a :| 0 <= a < |g| && g[a] == Pair(data[i]);
    var b :| 0 <= b < |g| && g[b] == Pair(data[j]);
    assert g[a].0 != g[b].0;
  }

  lemma AcronymNameFromGroup(data: seq<Record>, t: string)
    requires t in ByTopic(data) && HasAcronymName(ByTopic(data)[t], t)
    ensures TopicHasAcronymName(data, t)
  {
    var g := ByTopic(data)[t];
    var a :| 0 <= a < |g| && IsAcronymName(g[a], t);
    GroupHasRecord(data, t, g[a]);
  }

  lemma AcronymNameToGroup(data: seq<Record>, t: string)
    requires TopicHasAcronymName(data, t)
    ensures t in ByTopic(data) && HasAcronymName(ByTopic(data)[t], t)
  {
    var k :| 0 <= k < |data| && InTopic(data[k], t) && IsAcronymName(Pair(data[k]), t);
    RecordInGroup(data, t, k);
    var g := ByTopic(data)[t];
    var a :| 0 <= a < |g| && g[a] == Pair(data[k]);
  }

  /**
   * A topic is reconciled exactly when two of its records carry different file
   * names and one of its stems is the acronym of its proto file followed by the
   * topic.
   */
  lemma DuplicateTopicsCharacterized(data: seq<Record>, t: string)
    ensures t in DuplicateTopics(data) <==> TopicHasDistinctNames(data, t) && TopicHasAcronymName(data, t)
  {
    if t in DuplicateTopics(data) {
      DistinctNamesFromGroup(data, t);
      AcronymNameFromGroup(data, t);
    }
    if TopicHasDistinctNames(data, t) && TopicHasAcronymName(data, t) {
      DistinctNamesToGroup(data, t);
      AcronymNameToGroup(data, t);
    }
  }

  /** Reconciliation rewrites only a record of a duplicated topic whose stem is the topic itself. */
  lemma ReconciledChangesOnlyTopicStems(r: Record, dups: set<string>)
    ensures Reconciled(r, dups).topicName == r.topicName && Reconciled(r, dups).eventName == r.eventName
            && Reconciled(r, dups).protoFile == r.protoFile
    ensures Reconciled(r, dups) != r ==>
      GetOr(r.topicName) in dups && StripExt(GetOr(r.rosFilename)).0 == GetOr(r.topicName)
      && Reconciled(r, dups).rosFilename ==
           Some(HintToAcronym(GetOr(r.protoFile)) + GetOr(r.topicName)
                + (if StripExt(GetOr(r.rosFilename)).1 == [] then ".msg" else StripExt(GetOr(r.rosFilename)).1))
  {
  }
}
