/**
 * The `.msg` generator: the naming-conflict resolver over the registry of
 * generated names, the enum block, the field lines, and the recursive
 * generation of one message type with its nested types.
 */
module MsgGenerator {
  import opened Text
  import opened Utils
  import opened ProtoParser

  /** The registry `generated_msgs`: a generated name and the topic hint it was generated for. */
  type Registry = map<string, string>

  /** The entries of the warning log, one per `log_warning` call. */
  datatype Warning =
    | AlreadyGenerated(filename: string, previousHint: string, hint: string)
    | PersistentConflict(filename: string, previousHint: string, hint: string)
    | Renamed(original: string, renamed: string)
    | EmptyEnum(enumName: string)
    | EnumLineTooLong(enumName: string, line: string)
    | BlockNotFound(baseType: string)
    | FieldNameTooLong(field: string, filename: string, shortened: string)
    | OneofBytes(field: string, filename: string)

  // ---------------------------------------------------------------------------
  // _next_with_number

  /** `f"{prefix}{i}{rest}"`. */
  function Numbered(prefix: string, i: nat, rest: string): string
  {
    prefix + NatToString(i) + rest
  }

  /** A bound on the length of every registered name. */
  ghost function MaxKeyLength(keys: set<string>): (n: nat)
    ensures forall k :: k in keys ==> |k| <= n
    decreases keys
  {
    if keys == {} then 0
    else
      var k :| k in keys;
      var rest := MaxKeyLength(keys - {k});
      if |k| > rest then |k| else rest
  }

  /** Only numbers below `10^K` can give a candidate as short as a registered name. */
  lemma OccupiedIsSmall(prefix: string, i: nat, rest: string, hint: string, m: Registry)
    requires Occupied(Numbered(prefix, i, rest), hint, m)
    ensures i < Pow10(MaxKeyLength(m.Keys))
  {
    assert |NatToString(i)| <= |Numbered(prefix, i, rest)| <= MaxKeyLength(m.Keys);
    ShortNumberIsSmall(i, MaxKeyLength(m.Keys));
  }

  /** A number written in at most `k` digits is below `10^k`. */
  lemma {:induction false} ShortNumberIsSmall(i: nat, k: nat)
    ensures |NatToString(i)| <= k ==> i < Pow10(k)
  {
    if k >= 1 {
      if i >= 10 {
        ShortNumberIsSmall(i / 10, k - 1);
      } else {
        ShortNumberIsSmall(i, k - 1);
      }
    }
  }

  /**
   * The number `_next_with_number` settles on from `i`: the least `n >= i`
   * whose candidate is not taken by another hint.
   */
  function FirstFreeNumber(prefix: string, rest: string, hint: string, m: Registry, i: nat): (n: nat)
    ensures n >= i
    ensures !Occupied(Numbered(prefix, n, rest), hint, m)
    ensures forall j :: i <= j < n ==> Occupied(Numbered(prefix, j, rest), hint, m)
    decreases Pow10(MaxKeyLength(m.Keys)) - i
  {
    if Occupied(Numbered(prefix, i, rest), hint, m) then
      OccupiedIsSmall(prefix, i, rest, hint, m);
      FirstFreeNumber(prefix, rest, hint, m, i + 1)
    else i
  }

  /** `_next_with_number`: counts up from `start` until a candidate is free. */
  method NextWithNumber(prefix: string, rest: string, hint: string, m: Registry, start: nat) returns (cand: string)
    ensures cand == Numbered(prefix, FirstFreeNumber(prefix, rest, hint, m, start), rest)
  {
    var i := start;
    while true
      invariant start <= i <= FirstFreeNumber(prefix, rest, hint, m, start)
      invariant FirstFreeNumber(prefix, rest, hint, m, i) == FirstFreeNumber(prefix, rest, hint, m, start)
      decreases Pow10(MaxKeyLength(m.Keys)) - i
    {
      cand := Numbered(prefix, i, rest);
      if !Occupied(cand, hint, m) {
        return;
      }
      OccupiedIsSmall(prefix, i, rest, hint, m);
      i := i + 1;
    }
  }

  // ---------------------------------------------------------------------------
  // resolve_output_filename_conflict

  /** The acronym a conflicting hint contributes: `hint_to_acronym` of the hint with `.` turned into `_`. */
  function HintAcronym(hint: string): string
  {
    HintToAcronym(ReplaceAll(hint, ".", "_"))
  }

  /** How many digits `s` starts with: what `(\d+)` takes right after the acronym. */
  function LeadingDigits(s: string): (n: nat)
    ensures n <= |s| && AllDigits(s[..n])
  {
    Run(s, 0, IsDigit)
  }

  /** The name a request under a new hint is renamed to (msg_generator.py:72-115). */
  function RenamedFilename(name: string, hint: string, m: Registry): string
  {
    var acro := HintAcronym(hint);
    if StartsWith(name, acro) then
      var after := name[|acro|..];
      var d := LeadingDigits(after);
      if d > 0 then
        Numbered(acro, FirstFreeNumber(acro, after[d..], hint, m, ParseNat(after[..d]) + 1), after[d..])
      else
        Numbered(acro, FirstFreeNumber(acro, after, hint, m, 2), after)
    else if Occupied(acro + name, hint, m) then
      Numbered(acro, FirstFreeNumber(acro, name, hint, m, 2), name)
    else acro + name
  }

  /**
   * `resolve_output_filename_conflict`: the name to generate under, and
   * whether to generate it. A name is granted only when nobody holds it, so
   * the registry never gets a second owner for a name.
   */
  function ResolveConflict(name: string, hint: string, m: Registry): (r: (string, bool))
    ensures r.1 ==> r.0 !in m
    ensures name !in m ==> r == (name, true)
    ensures name in m && m[name] == hint ==> r == (name, false)
    ensures name in m && m[name] != hint ==> !Occupied(r.0, hint, m) && r.0 != name
  {
    if name !in m then (name, true)
    else if m[name] == hint then (name, false)
    else
      var renamed := RenamedFilename(name, hint, m);
      (renamed, renamed !in m)
  }

  /** The log entry of a resolution. */
  function ResolveWarning(name: string, hint: string, m: Registry): Option<Warning>
  {
    if name !in m then None
    else if m[name] == hint then Some(AlreadyGenerated(name, m[name], hint))
    else
      var renamed := RenamedFilename(name, hint, m);
      if renamed in m then Some(PersistentConflict(renamed, m[renamed], hint)) else Some(Renamed(name, renamed))
  }

  /** The resolver as the generator runs it, with the numbered search as a loop. */
  method ResolveOutputFilenameConflict(name: string, hint: string, m: Registry)
    returns (filename: string, shouldGenerate: bool, warning: Option<Warning>)
    ensures (filename, shouldGenerate) == ResolveConflict(name, hint, m)
    ensures warning == ResolveWarning(name, hint, m)
  {
    if name in m {
      var previousHint := m[name];
      if previousHint == hint {
        return name, false, Some(AlreadyGenerated(name, previousHint, hint));
      }
      var acro := HintToAcronym(ReplaceAll(hint, ".", "_"));
      var newFilename;
      if StartsWith(name, acro) {
        var rest := name[|acro|..];
        var d := LeadingDigits(rest);
        if d > 0 {
          newFilename := NextWithNumber(acro, rest[d..], hint, m, ParseNat(rest[..d]) + 1);
        } else {
          newFilename := NextWithNumber(acro, rest, hint, m, 2);
        }
      } else {
        var cand := acro + name;
        if Occupied(cand, hint, m) {
          newFilename := NextWithNumber(acro, name, hint, m, 2);
        } else {
          newFilename := cand;
        }
      }
      if newFilename in m {
        return newFilename, false, Some(PersistentConflict(newFilename, m[newFilename], hint));
      }
      return newFilename, true, Some(Renamed(name, newFilename));
    }
    return name, true, None;
  }

  /** Every candidate numbered from `lo` up to `hi`, exclusive, is taken by another hint. */
  predicate TakenBetween(prefix: string, rest: string, hint: string, m: Registry, lo: nat, hi: nat)
  {
    forall j :: lo <= j < hi ==> Occupied(Numbered(prefix, j, rest), hint, m)
  }

  /**
   * A name already held under the same hint is never generated again: the
   * registration made before recursing stops a type from regenerating itself.
   */
  lemma RegisteredNameDeclined(name: string, hint: string, m: Registry)
    requires name in m && m[name] == hint
    ensures ResolveConflict(name, hint, m) == (name, false)
    ensures ResolveWarning(name, hint, m) == Some(AlreadyGenerated(name, hint, hint))
  {
  }

  /**
   * A name that does not start with the acronym gets the acronym in front;
   * when that is taken by another hint, the first free `acro{i}name` from
   * `i = 2` on.
   */
  lemma AcronymPrepended(name: string, hint: string, m: Registry)
    requires name in m && m[name] != hint
    requires !StartsWith(name, HintAcronym(hint))
    ensures var acro := HintAcronym(hint);
      var r := ResolveConflict(name, hint, m).0;
      (!Occupied(acro + name, hint, m) ==> r == acro + name)
      && (Occupied(acro + name, hint, m) ==>
            exists n :: n >= 2 && r == Numbered(acro, n, name) && TakenBetween(acro, name, hint, m, 2, n))
  {
    var acro := HintAcronym(hint);
    if Occupied(acro + name, hint, m) {
      var n := FirstFreeNumber(acro, name, hint, m, 2);
      assert ResolveConflict(name, hint, m).0 == Numbered(acro, n, name);
      assert TakenBetween(acro, name, hint, m, 2, n);
    }
  }

  /**
   * A name that already starts with the acronym is not prefixed twice: when
   * digits follow the acronym the count goes on from that number plus one,
   * otherwise it starts at 2.
   */
  lemma AcronymNumberContinued(name: string, hint: string, m: Registry)
    requires name in m && m[name] != hint
    requires StartsWith(name, HintAcronym(hint))
    ensures var acro := HintAcronym(hint);
      var after := name[|acro|..];
      var d := LeadingDigits(after);
      var start := if d > 0 then ParseNat(after[..d]) + 1 else 2;
      exists n :: n >= start && ResolveConflict(name, hint, m).0 == Numbered(acro, n, after[d..])
                  && TakenBetween(acro, after[d..], hint, m, start, n)
  {
    var acro := HintAcronym(hint);
    var after := name[|acro|..];
    var d := LeadingDigits(after);
    var start := if d > 0 then ParseNat(after[..d]) + 1 else 2;
    if d == 0 {
      assert after[d..] == after;
    }
    var n := FirstFreeNumber(acro, after[d..], hint, m, start);
    assert ResolveConflict(name, hint, m).0 == Numbered(acro, n, after[d..]);
    assert TakenBetween(acro, after[d..], hint, m, start, n);
  }

  // ---------------------------------------------------------------------------
  // The enum entry pattern `^\s*([A-Z0-9_]+)\s*=\s*(-?\d+)` and the value
  // pattern `=\s*(-?\d+)` (msg_generator.py:24, 211)

  predicate IsConstantChar(c: char) { IsUpper(c) || IsDigit(c) || c == '_' }

  /** Text matched by `-?\d+`. */
  predicate IsIntegerText(t: string)
  {
    t != [] && (AllDigits(t) || (t[0] == '-' && AllDigits(t[1..])))
  }

  function DigitRun(s: string, p: nat): (n: nat)
    requires p <= |s|
    ensures p + n <= |s| && AllDigits(s[p..p + n])
  {
    Run(s, p, IsDigit)
  }

  /** `-?\d+` at `p`: the length of the signed number there, or 0. */
  function IntegerAt(s: string, p: nat): (n: nat)
    requires p <= |s|
    ensures p + n <= |s|
    ensures n > 0 ==> IsIntegerText(s[p..p + n])
  {
    var sign := if p + 1 < |s| && s[p] == '-' && IsDigit(s[p + 1]) then 1 else 0;
    var d := DigitRun(s, p + sign);
    if d == 0 then 0
    else
      assert sign == 1 ==> s[p..p + sign + d][1..] == s[p + 1..p + 1 + d];
      assert sign == 0 ==> s[p..p + sign + d] == s[p..p + d];
      sign + d
  }

  /** One `NAME = value` entry of an enum block. */
  datatype Entry = Entry(name: string, value: string)

  /** `=\s*(-?\d+)` at `p`: the number's text and where the match ends. */
  function NumberAfterEquals(s: string, p: nat): (r: Option<(string, nat)>)
    requires p <= |s|
    ensures r.Some? ==> p < r.value.1 <= |s| && IsIntegerText(r.value.0)
  {
    if p == |s| || s[p] != '=' then None
    else
      var vp := p + 1 + SpaceRun(s, p + 1);
      var v := IntegerAt(s, vp);
      if v == 0 then None else Some((s[vp..vp + v], vp + v))
  }

  /** The entry pattern tried at `p`: the entry and where the match ends. */
  function EntryAt(s: string, p: nat): (r: Option<(Entry, nat)>)
    requires p <= |s|
    ensures r.Some? ==> p < r.value.1 <= |s| && r.value.0.name != [] && IsIntegerText(r.value.0.value)
  {
    var q := p + SpaceRun(s, p);
    var n := Run(s, q, IsConstantChar);
    var v := if n == 0 then None else NumberAfterEquals(s, q + n + SpaceRun(s, q + n));
    if v.None? then None
    else Some((Entry(s[q..q + n], v.value.0), v.value.1))
  }

  /** `re.findall` of the entry pattern in multi-line mode, from `p` on. */
  function EntriesFrom(s: string, p: nat): (r: seq<Entry>)
    requires p <= |s|
    ensures forall k :: 0 <= k < |r| ==> r[k].name != [] && IsIntegerText(r[k].value)
    decreases |s| - p
  {
    var m := if LineStart(s, p) then EntryAt(s, p) else None;
    if m.Some? then [m.value.0] + EntriesFrom(s, m.value.1)
    else if p == |s| then []
    else EntriesFrom(s, p + 1)
  }

  /** `re.findall(r'=\s*(-?\d+)', s[p..])`: every number that follows an `=`. */
  function ValuesFrom(s: string, p: nat): (r: seq<string>)
    requires p <= |s|
    ensures forall k :: 0 <= k < |r| ==> IsIntegerText(r[k])
    decreases |s| - p
  {
    if p == |s| then []
    else
      var v := NumberAfterEquals(s, p);
      if v.Some? then [v.value.0] + ValuesFrom(s, v.value.1)
      else ValuesFrom(s, p + 1)
  }

  function ParseAll(texts: seq<string>): (r: seq<int>)
    requires forall k :: 0 <= k < |texts| ==> IsIntegerText(texts[k])
    ensures |r| == |texts|
  {
    if texts == [] then []
    else
      assert IsIntegerText(texts[0]);
      [ParseInt(texts[0])] + ParseAll(texts[1..])
  }

  /** The values of an enum block as `generate_msg_type` reads them. */
  function EnumValues(block: string): seq<int>
  {
    ParseAll(ValuesFrom(block, 0))
  }

  function EntryValues(entries: seq<Entry>): (r: seq<int>)
    requires forall k :: 0 <= k < |entries| ==> IsIntegerText(entries[k].value)
    ensures |r| == |entries|
  {
    if entries == [] then []
    else
      assert IsIntegerText(entries[0].value);
      [ParseInt(entries[0].value)] + EntryValues(entries[1..])
  }

  // ---------------------------------------------------------------------------
  // generate_enum_block

  /** The constant name of an entry: `__` collapsed in one left-to-right pass, then cut to fit after `C_`. */
  function ConstantName(name: string, maxLineLength: int): string
  {
    ShortenNameSimple(if Contains(name, "__") then ReplaceAll(name, "__", "_") else name, "C_", maxLineLength)
  }

  /** The line of one entry. */
  function ConstantLine(fieldType: string, e: Entry, maxLineLength: int): string
  {
    fieldType + " C_" + ConstantName(e.name, maxLineLength) + " = " + e.value
  }

  /** The entry lines, or the first line whose constant name is too long. */
  datatype EnumLines = Lines(lines: seq<string>) | TooLong(line: string)

  function Prepend(ls: seq<string>, r: EnumLines): EnumLines
  {
    match r
    case Lines(rest) => Lines(ls + rest)
    case TooLong(_) => r
  }

  function EnumLinesOf(fieldType: string, entries: seq<Entry>, maxLineLength: int): EnumLines
  {
    if entries == [] then Lines([])
    else if |ConstantName(entries[0].name, maxLineLength)| > maxLineLength then
      TooLong(ConstantLine(fieldType, entries[0], maxLineLength))
    else Prepend([ConstantLine(fieldType, entries[0], maxLineLength)], EnumLinesOf(fieldType, entries[1..], maxLineLength))
  }

  function EnumErrorLines(enumName: string, line: string): seq<string>
  {
    ["Error: generated line exceeds max length for enum : " + enumName + ":", " " + line]
  }

  /** The lines `generate_enum_block` returns, joined by line breaks in the source, and what it logs. */
  function EnumBlockOf(enumName: string, block: string, maxLineLength: int): (r: (seq<string>, Option<Warning>))
    ensures EntriesFrom(block, 0) == [] <==> r.1 == Some(EmptyEnum(enumName))
  {
    var entries := EntriesFrom(block, 0);
    if entries == [] then (["Warning: empty enum: " + enumName], Some(EmptyEnum(enumName)))
    else
      var fieldType := DetermineRosType(EntryValues(entries));
      match EnumLinesOf(fieldType, entries, maxLineLength)
      case Lines(ls) => (["# Add Enum " + enumName] + ls, None)
      case TooLong(line) => (EnumErrorLines(enumName, line), Some(EnumLineTooLong(enumName, line)))
  }

  lemma PrependAppend(a: seq<string>, b: seq<string>, r: EnumLines)
    ensures Prepend(a, Prepend(b, r)) == Prepend(a + b, r)
  {
    if r.Lines? {
      assert a + (b + r.lines) == (a + b) + r.lines;
    }
  }

  /** One entry of the loop in `generate_enum_block`: its line, or the stop when its name is too long. */
  lemma EnumLinesStep(fieldType: string, entries: seq<Entry>, i: nat, maxLineLength: int)
    requires i < |entries|
    ensures var name := ConstantName(entries[i].name, maxLineLength);
      var line := ConstantLine(fieldType, entries[i], maxLineLength);
      EnumLinesOf(fieldType, entries[i..], maxLineLength)
      == if |name| > maxLineLength then TooLong(line) else Prepend([line], EnumLinesOf(fieldType, entries[i + 1..], maxLineLength))
  {
    assert entries[i..][1..] == entries[i + 1..];
  }

  /** `generate_enum_block`: a header line, then one line per entry, all with the type of the values. */
  method GenerateEnumBlock(enumName: string, block: string, fieldName: string, maxLineLength: int)
    returns (lines: seq<string>, warning: Option<Warning>)
    ensures (lines, warning) == EnumBlockOf(enumName, block, maxLineLength)
  {
    var entries := EntriesFrom(block, 0);
    if entries == [] {
      return ["Warning: empty enum: " + enumName], Some(EmptyEnum(enumName));
    }
    var fieldType := DetermineRosType(EntryValues(entries));
    var body: seq<string> := [];
    var i := 0;
    while i < |entries|
      invariant 0 <= i <= |entries|
      invariant EnumLinesOf(fieldType, entries, maxLineLength) == Prepend(body, EnumLinesOf(fieldType, entries[i..], maxLineLength))
    {
      var name := entries[i].name;
      if Contains(name, "__") {
        name := ReplaceAll(name, "__", "_");
      }
      var shortName := ShortenNameSimple(name, "C_", maxLineLength);
      var line := fieldType + " C_" + shortName + " = " + entries[i].value;
      EnumLinesStep(fieldType, entries, i, maxLineLength);
      if |shortName| > maxLineLength {
        return EnumErrorLines(enumName, line), Some(EnumLineTooLong(enumName, line));
      }
      PrependAppend(body, [line], EnumLinesOf(fieldType, entries[i + 1..], maxLineLength));
      body := body + [line];
      i := i + 1;
    }
    assert entries[i..] == [];
    assert body + [] == body;
    lines := ["# Add Enum " + enumName] + body;
    warning := None;
  }

  /**
   * With room for the `C_` prefix every constant name fits, so the
   * length-error branch is never taken: one line per entry, in order.
   */
  lemma {:induction false} EnumConstantsFit(fieldType: string, entries: seq<Entry>, maxLineLength: int)
    requires maxLineLength >= 2
    ensures EnumLinesOf(fieldType, entries, maxLineLength).Lines?
    ensures var ls := EnumLinesOf(fieldType, entries, maxLineLength).lines;
      |ls| == |entries| && forall k :: 0 <= k < |entries| ==> ls[k] == ConstantLine(fieldType, entries[k], maxLineLength)
  {
    if entries != [] {
      EnumConstantsFit(fieldType, entries[1..], maxLineLength);
      var name := entries[0].name;
      var collapsed := if Contains(name, "__") then ReplaceAll(name, "__", "_") else name;
      assert |"C_" + ConstantName(name, maxLineLength)| <= maxLineLength;
    }
  }

  /**
   * A block with entries gives `# Add Enum <name>` and then, for each entry in
   * order, `<T> C_<name> = <value>` with the same `T` for all, the type
   * `determine_ros_type_from_values` picks for the entry values.
   */
  lemma EnumBlockShape(enumName: string, block: string)
    requires EntriesFrom(block, 0) != []
    ensures var entries := EntriesFrom(block, 0);
      var t := DetermineRosType(EntryValues(entries));
      var r := EnumBlockOf(enumName, block, 63);
      r.1.None? && |r.0| == |entries| + 1 && r.0[0] == "# Add Enum " + enumName
      && (forall k :: 0 <= k < |entries| ==> r.0[k + 1] == ConstantLine(t, entries[k], 63))
  {
    var entries := EntriesFrom(block, 0);
    var t := DetermineRosType(EntryValues(entries));
    EnumConstantsFit(t, entries, 63);
    var ls := EnumLinesOf(t, entries, 63).lines;
    assert EnumBlockOf(enumName, block, 63) == (["# Add Enum " + enumName] + ls, None);
  }

  /** `__` is collapsed in a single pass: three underscores become two. */
  lemma SinglePassCollapse()
    ensures ConstantName("A___B", 63) == "A__B"
  {
    assert OccursAt("A___B", "__", 1);
    assert ReplaceAll("A___B"[3..], "__", "_") == "_B" by {
      assert "A___B"[3..] == "_B";
      assert ReplaceAll("_B"[1..], "__", "_") == "B";
    }
    assert ReplaceAll("A___B"[1..], "__", "_") == "_" + "_B";
  }

  // ---------------------------------------------------------------------------
  // The field pattern of generate_msg_type (msg_generator.py:168):
  // `^\s*(repeated\s+)?([\w\.]+)\s+([\w_]+)\s*=\s*\d+(?:\s*\[(.*?)\])?`,
  // multi-line, `.` crossing line breaks

  /** One match of the field pattern: the `repeated` group, the type, the name and the options between `[` and `]`. */
  datatype Field = Field(repeated: bool, fieldType: string, name: string, options: string)

  predicate IsTypeChar(c: char) { IsWordChar(c) || c == '.' }

  /** `\s*=\s*\d+` at `p`: where it ends. */
  function NumberEnd(s: string, p: nat): (e: Option<nat>)
    requires p <= |s|
    ensures e.Some? ==> p < e.value <= |s|
  {
    var eq := p + SpaceRun(s, p);
    if eq == |s| || s[eq] != '=' then None
    else
      var dp := eq + 1 + SpaceRun(s, eq + 1);
      var dg := Run(s, dp, IsDigit);
      if dg == 0 then None else Some(dp + dg)
  }

  /** `(?:\s*\[(.*?)\])?` at `p`: the text up to the first `]`, and where the match ends. */
  function OptionsAt(s: string, p: nat): (r: (string, nat))
    requires p <= |s|
    ensures p <= r.1 <= |s|
  {
    var br := p + SpaceRun(s, p);
    var close := if br < |s| && s[br] == '[' then FindFrom(s, ']', br + 1) else None;
    if close.Some? then (s[br + 1..close.value], close.value + 1) else ("", p)
  }

  /** The pattern from the type on, at `q`: the field and where the match ends. */
  function FieldBodyAt(s: string, q: nat, repeated: bool): (r: Option<(Field, nat)>)
    requires q <= |s|
    ensures r.Some? ==> q < r.value.1 <= |s| && r.value.0.repeated == repeated
  {
    var t := Run(s, q, IsTypeChar);
    var sp := if t == 0 then 0 else SpaceRun(s, q + t);
    var n := if sp == 0 then 0 else Run(s, q + t + sp, IsWordChar);
    var e := if n == 0 then None else NumberEnd(s, q + t + sp + n);
    if e.None? then None
    else
      var o := OptionsAt(s, e.value);
      Some((Field(repeated, s[q..q + t], s[q + t + sp..q + t + sp + n], o.0), o.1))
  }

  /** The pattern tried at `p`: with the `repeated` group when the rest matches after it, else without. */
  function FieldAt(s: string, p: nat): (r: Option<(Field, nat)>)
    requires p <= |s|
    ensures r.Some? ==> p < r.value.1 <= |s|
  {
    var q := p + SpaceRun(s, p);
    var withRepeated :=
      if OccursAt(s, "repeated", q) && SpaceRun(s, q + 8) > 0 then FieldBodyAt(s, q + 8 + SpaceRun(s, q + 8), true)
      else None;
    if withRepeated.Some? then withRepeated else FieldBodyAt(s, q, false)
  }

  /** `pattern.finditer(block)` from `p` on. */
  function FieldsFrom(s: string, p: nat): (r: seq<Field>)
    requires p <= |s|
    decreases |s| - p
  {
    var m := if LineStart(s, p) then FieldAt(s, p) else None;
    if m.Some? then [m.value.0] + FieldsFrom(s, m.value.1)
    else if p == |s| then []
    else FieldsFrom(s, p + 1)
  }

  // ---------------------------------------------------------------------------
  // Field lines (msg_generator.py:176-203)

  /** `[N]` from the `repeated_field_max_count` option, else `[]`. */
  function RepeatedSuffix(options: string): string
  {
    var n := OptionSearch(options, 0, "repeated_field_max_count", Digits);
    if n.Some? then "[" + n.value + "]" else "[]"
  }

  /** What follows the type on a field line: only a repeated field carries an array suffix. */
  function SuffixOf(f: Field): string
  {
    if f.repeated then RepeatedSuffix(f.options) else ""
  }

  /**
   * The suffix of a repeated field is `[]` exactly when there is no
   * `repeated_field_max_count` option, and otherwise that option's digits in
   * brackets.
   */
  lemma RepeatedSuffixShape(options: string)
    ensures var r := RepeatedSuffix(options);
      r == "[]" || (|r| > 2 && r[0] == '[' && r[|r| - 1] == ']' && AllDigits(r[1..|r| - 1]))
    ensures var n := OptionSearch(options, 0, "repeated_field_max_count", Digits);
      (RepeatedSuffix(options) == "[]" <==> n.None?)
      && (n.Some? ==> RepeatedSuffix(options) == "[" + n.value + "]")
  {
    OptionSearchValue(options, 0, "repeated_field_max_count", Digits);
    var n := OptionSearch(options, 0, "repeated_field_max_count", Digits);
    if n.Some? {
      assert ("[" + n.value + "]")[1..|n.value| + 1] == n.value;
    }
  }

  /** A `repeated_field_max_count` option written with digits bounds the array by those digits. */
  lemma RepeatedSuffixFound(options: string, mid: string, digits: string)
    requires options == "(" + mid + "repeated_field_max_count) = " + digits
    requires '\n' !in mid && digits != [] && AllDigits(digits)
    ensures RepeatedSuffix(options) == "[" + digits + "]"
  {
    assert "(" + mid + "repeated_field_max_count" + ") = " + digits == options;
    OptionFound(mid, "repeated_field_max_count", digits, Digits);
  }

  /** The line of a `bytes` field other than `raw_bytes`: `uint8[N]` when a non-zero size is given. */
  function BytesLine(fieldName: string, options: string): (r: string)
    ensures StartsWith(r, "uint8") && EndsWith(r, " " + fieldName)
  {
    var size := FixedSizeOfBytes(options);
    if size.Some? && size.value != 0 then
      var head := "uint8[" + NatToString(size.value) + "]";
      StartsWithAppend("uint8", "uint8[", NatToString(size.value) + "]");
      assert head == "uint8[" + (NatToString(size.value) + "]");
      StartsWithAppend("uint8", head, " " + fieldName);
      EndsWithSpaced(head, fieldName);
      head + " " + fieldName
    else
      StartsWithAppend("uint8", "uint8", " " + fieldName);
      EndsWithSpaced("uint8", fieldName);
      "uint8 " + fieldName
  }

  /** The type written for a primitive field: an integer type resolved by its `PBS_` option when it has one. */
  function PrimitiveRosType(f: Field): (t: string)
    ensures t != f.fieldType ==>
      PrimitiveByteSize(f.options).Some? && t in PrimitiveTypes
      && (StartsWith(t, "uint") <==> StartsWith(f.fieldType, "uint"))
    ensures t != f.fieldType ==>
      ResolveType(f.fieldType, PrimitiveByteSize(f.options)).Some?
      && t == ResolveType(f.fieldType, PrimitiveByteSize(f.options)).value
  {
    var resolved :=
      if StartsWith(f.fieldType, "int") || StartsWith(f.fieldType, "uint") then ResolveType(f.fieldType, PrimitiveByteSize(f.options))
      else None;
    if resolved.Some? then resolved.value else f.fieldType
  }

  /** The line of a primitive field. */
  function PrimitiveLine(f: Field, fieldName: string): (r: string)
    ensures EndsWith(r, " " + fieldName)
  {
    var head := PrimitiveRosType(f) + SuffixOf(f);
    EndsWithSpaced(head, fieldName);
    head + " " + fieldName
  }

  /** The name a field is written under: cut to 61 characters, as for a `C_` constant, when longer than 63. */
  function WrittenFieldName(name: string): (r: string)
    ensures |r| <= 63
    ensures |name| <= 63 ==> r == name
    ensures StartsWith(name, r)
  {
    if |name| > 63 then ShortenNameSimple(name, "C_", 63) else name
  }

  // ---------------------------------------------------------------------------
  // Enum-typed fields (msg_generator.py:206-221)

  /** The enum blocks `find_enum_blocks` returned, file by file, as one list in order. */
  function Flatten(enums: seq<(string, seq<(string, string)>)>): seq<(string, string)>
  {
    if enums == [] then [] else enums[0].1 + Flatten(enums[1..])
  }

  /**
   * What the enum branch writes and logs for one field, the enums used in the
   * file so far, and whether it ran to the end: a block with no value stops
   * generation, as `min` of no values raises.
   */
  datatype EnumOutput = EnumOutput(lines: seq<string>, used: set<string>, warnings: seq<Warning>, ok: bool)

  /** One output after another. */
  function Then(a: EnumOutput, b: EnumOutput): EnumOutput
  {
    EnumOutput(a.lines + b.lines, b.used, a.warnings + b.warnings, b.ok)
  }

  /** The type line of an enum field. */
  function EnumTypeLine(typeEnum: string, suffix: string, fieldName: string): string
  {
    typeEnum + suffix + " " + fieldName
  }

  /** One enum block of the field's type: the whole block the first time in the file, a comment after that. */
  function EnumHead(name: string, block: string, typeEnum: string, subBase: string, suffix: string,
                    fieldName: string, used: set<string>): EnumOutput
  {
    if !StartsWith(name, subBase) then EnumOutput([], used, [], true)
    else if name !in used then
      var eb := EnumBlockOf(name, block, 63);
      EnumOutput([EnumTypeLine(typeEnum, suffix, fieldName)] + eb.0, used + {name},
                 if eb.1.Some? then [eb.1.value] else [], true)
    else EnumOutput([EnumTypeLine(typeEnum, suffix, fieldName) + "  # Uses enum " + name], used, [], true)
  }

  function EnumFieldOutput(found: seq<(string, string)>, subBase: string, suffix: string, fieldName: string,
                           used: set<string>): EnumOutput
  {
    if found == [] then EnumOutput([], used, [], true)
    else
      var values := EnumValues(found[0].1);
      if values == [] then EnumOutput([], used, [], false)
      else
        var head := EnumHead(found[0].0, found[0].1, DetermineRosType(values), subBase, suffix, fieldName, used);
        Then(head, EnumFieldOutput(found[1..], subBase, suffix, fieldName, head.used))
  }

  lemma ThenAssociative(a: EnumOutput, b: EnumOutput, c: EnumOutput)
    ensures Then(Then(a, b), c) == Then(a, Then(b, c))
  {
    assert (a.lines + b.lines) + c.lines == a.lines + (b.lines + c.lines);
    assert (a.warnings + b.warnings) + c.warnings == a.warnings + (b.warnings + c.warnings);
  }

  lemma EnumFieldStep(found: seq<(string, string)>, i: nat, subBase: string, suffix: string, fieldName: string,
                      used: set<string>)
    requires i < |found|
    ensures var values := EnumValues(found[i].1);
      EnumFieldOutput(found[i..], subBase, suffix, fieldName, used)
      == if values == [] then EnumOutput([], used, [], false)
         else
           var head := EnumHead(found[i].0, found[i].1, DetermineRosType(values), subBase, suffix, fieldName, used);
           Then(head, EnumFieldOutput(found[i + 1..], subBase, suffix, fieldName, head.used))
  {
    assert found[i..][1..] == found[i + 1..];
  }

  /** The enum branch for one field, over the blocks in the order the search returned them. */
  method EnumFieldLines(found: seq<(string, string)>, subBase: string, suffix: string, fieldName: string,
                        used: set<string>) returns (out: EnumOutput)
    ensures out == EnumFieldOutput(found, subBase, suffix, fieldName, used)
  {
    out := EnumOutput([], used, [], true);
    var i := 0;
    while i < |found|
      invariant 0 <= i <= |found|
      invariant out.ok
      invariant EnumFieldOutput(found, subBase, suffix, fieldName, used)
                == Then(out, EnumFieldOutput(found[i..], subBase, suffix, fieldName, out.used))
    {
      var name := found[i].0;
      var enumBlock := found[i].1;
      var values := EnumValues(enumBlock);
      EnumFieldStep(found, i, subBase, suffix, fieldName, out.used);
      if values == [] {
        out := Then(out, EnumOutput([], out.used, [], false));
        return;
      }
      var typeEnum := DetermineRosType(values);
      var head := EnumOutput([], out.used, [], true);
      if StartsWith(name, subBase) {
        if name !in out.used {
          var enumLines, w := GenerateEnumBlock(name, enumBlock, fieldName, 63);
          head := EnumOutput([EnumTypeLine(typeEnum, suffix, fieldName)] + enumLines, out.used + {name},
                             if w.Some? then [w.value] else [], true);
        } else {
          head := EnumOutput([EnumTypeLine(typeEnum, suffix, fieldName) + "  # Uses enum " + name], out.used, [], true);
        }
      }
      assert head == EnumHead(name, enumBlock, typeEnum, subBase, suffix, fieldName, out.used);
      ThenAssociative(out, head, EnumFieldOutput(found[i + 1..], subBase, suffix, fieldName, head.used));
      out := Then(out, head);
      i := i + 1;
    }
    assert found[i..] == [];
    assert out.lines + [] == out.lines && out.warnings + [] == out.warnings;
  }

  /** Every block found is the field's enum and holds at least one value. */
  predicate AllBlocksOf(found: seq<(string, string)>, subBase: string)
  {
    forall k :: 0 <= k < |found| ==> found[k].0 == subBase && EnumValues(found[k].1) != []
  }

  /** The comment line written for an enum already in the file. */
  predicate IsUsesLine(line: string, name: string)
  {
    EndsWith(line, "  # Uses enum " + name)
  }

  lemma UsedHead(block: string, typeEnum: string, subBase: string, suffix: string, fieldName: string,
                 used: set<string>)
    requires subBase in used
    ensures var head := EnumHead(subBase, block, typeEnum, subBase, suffix, fieldName, used);
      head.ok && head.used == used && head.warnings == [] && |head.lines| == 1 && IsUsesLine(head.lines[0], subBase)
  {
    assert StartsWith(subBase, subBase);
    var line := EnumTypeLine(typeEnum, suffix, fieldName);
    var tag := "  # Uses enum " + subBase;
    assert (line + tag)[|line + tag| - |tag|..] == tag;
  }

  /**
   * An enum already written in the file is not written again: every block of
   * it only adds a `# Uses enum` comment line, and nothing is logged.
   */
  lemma {:induction false} EnumWrittenOnce(found: seq<(string, string)>, subBase: string, suffix: string,
                                          fieldName: string, used: set<string>)
    requires subBase in used
    requires AllBlocksOf(found, subBase)
    ensures var out := EnumFieldOutput(found, subBase, suffix, fieldName, used);
      out.ok && out.used == used && out.warnings == [] && |out.lines| == |found|
      && forall k :: 0 <= k < |found| ==> IsUsesLine(out.lines[k], subBase)
  {
    if found != [] {
      assert AllBlocksOf(found[1..], subBase) by {
        forall k | 0 <= k < |found[1..]| ensures found[1..][k] == found[k + 1] { }
      }
      EnumWrittenOnce(found[1..], subBase, suffix, fieldName, used);
      var values := EnumValues(found[0].1);
      assert found[0].0 == subBase && values != [];
      UsedHead(found[0].1, DetermineRosType(values), subBase, suffix, fieldName, used);
      var head := EnumHead(subBase, found[0].1, DetermineRosType(values), subBase, suffix, fieldName, used);
      var tail := EnumFieldOutput(found[1..], subBase, suffix, fieldName, used);
      var out := EnumFieldOutput(found, subBase, suffix, fieldName, used);
      assert out == Then(head, tail);
      forall k | 0 <= k < |found| ensures IsUsesLine(out.lines[k], subBase) {
        if k > 0 {
          assert out.lines[k] == tail.lines[k - 1];
        }
      }
    }
  }

  /**
   * The first use of an enum in a file writes its type line and then its
   * whole block; the enum is then marked as used in the file.
   */
  lemma EnumFirstUse(found: seq<(string, string)>, subBase: string, suffix: string, fieldName: string,
                     used: set<string>)
    requires subBase !in used && found != []
    requires AllBlocksOf(found, subBase)
    ensures var out := EnumFieldOutput(found, subBase, suffix, fieldName, used);
      var block := EnumBlockOf(subBase, found[0].1, 63).0;
      out.ok && out.used == used + {subBase}
      && out.lines[..|block| + 1] == [EnumTypeLine(DetermineRosType(EnumValues(found[0].1)), suffix, fieldName)] + block
      && |out.lines| == |block| + |found|
  {
    assert StartsWith(subBase, subBase);
    var values := EnumValues(found[0].1);
    assert found[0].0 == subBase && values != [];
    var head := EnumHead(subBase, found[0].1, DetermineRosType(values), subBase, suffix, fieldName, used);
    assert AllBlocksOf(found[1..], subBase) by {
      forall k | 0 <= k < |found[1..]| ensures found[1..][k] == found[k + 1] { }
    }
    EnumWrittenOnce(found[1..], subBase, suffix, fieldName, used + {subBase});
    var out := EnumFieldOutput(found, subBase, suffix, fieldName, used);
    assert out == Then(head, EnumFieldOutput(found[1..], subBase, suffix, fieldName, used + {subBase}));
  }

  // ---------------------------------------------------------------------------
  // Generating one message type (msg_generator.py:132-243)

  /**
   * The schema lookups generation depends on, given as functions: the block
   * and file of a type searched with a hint and without, the proto file of a
   * nested type, and the `.proto` files the enum search walks.
   */
  datatype Schema = Schema(
    messageWithHint: (string, string, bool) -> Option<string>,
    message: string -> Option<string>,
    protoFileOf: (string, string) -> string,
    corpus: seq<SourceFile>)

  /** The block of a type: searched with the hint first when there is one; an empty block counts as none. */
  function LookupBlock(schema: Schema, baseType: string, hint: string, topLevel: bool): (b: Option<string>)
    ensures b.Some? ==> b.value != []
    ensures hint == [] ==> (b.Some? <==> schema.message(baseType).Some? && schema.message(baseType).value != [])
  {
    var withHint := if hint != [] then schema.messageWithHint(baseType, hint, topLevel) else None;
    var found := if withHint.Some? && withHint.value != [] then withHint else schema.message(baseType);
    if found.Some? && found.value != [] then found else None
  }

  const HeaderLine := "ast_ssot_msgs/Header header"

  /** `m2` keeps every entry of `m1`. */
  predicate Extends(m2: Registry, m1: Registry)
  {
    forall k :: k in m1 ==> k in m2 && m2[k] == m1[k]
  }

  lemma ExtendsTransitive(m3: Registry, m2: Registry, m1: Registry)
    requires Extends(m3, m2) && Extends(m2, m1)
    ensures Extends(m3, m1)
  {
  }

  /** Growth of the registry, the manifest and the warnings composes. */
  lemma GrowthComposes(r2: Registry, r1: Registry, r0: Registry, m2: seq<Record>, m1: seq<Record>, m0: seq<Record>,
                       w2: seq<Warning>, w1: seq<Warning>, w0: seq<Warning>)
    requires Extends(r2, r1) && Extends(r1, r0) && m1 <= m2 && m0 <= m1 && w1 <= w2 && w0 <= w1
    ensures Extends(r2, r0) && m0 <= m2 && w0 <= w2
  {
  }

  /** Registering a name again to the hint it already has leaves the registry as it was. */
  lemma ReRegisterSame(m: Registry, k: string, v: string)
    requires k in m && m[k] == v
    ensures m[k := v] == m
  {
  }

  lemma ExtendsFresh(m: Registry, k: string, v: string)
    requires k !in m
    ensures Extends(m[k := v], m)
  {
  }

  /** The line of a `bytes` or primitive field; `None` for the `raw_bytes` of a oneof, which is skipped. */
  function PlainFieldLine(f: Field, fieldName: string): (r: Option<string>)
    ensures r.None? <==> f.fieldType == "bytes" && fieldName == "raw_bytes"
    ensures r.Some? && f.fieldType == "bytes" ==> StartsWith(r.value, "uint8")
    ensures r.Some? ==> EndsWith(r.value, " " + fieldName)
    ensures f.fieldType == "bytes" && r.Some? ==>
      var size := FixedSizeOfBytes(f.options);
      r.value == (if size.Some? && size.value != 0 then "uint8[" + NatToString(size.value) + "] " else "uint8 ") + fieldName
    ensures f.fieldType != "bytes" ==>
      r == Some(PrimitiveRosType(f) + (if f.repeated then RepeatedSuffix(f.options) else "") + " " + fieldName)
  {
    if f.fieldType == "bytes" then
      if fieldName == "raw_bytes" then None else Some(BytesLine(fieldName, f.options))
    else Some(PrimitiveLine(f, fieldName))
  }

  /** A `bytes` field with a non-zero `variable_type_max_size` option is written as a `uint8` array of that size. */
  lemma SizedBytesLine(f: Field, fieldName: string, mid: string, digits: string)
    requires f.fieldType == "bytes" && fieldName != "raw_bytes"
    requires f.options == "(" + mid + "variable_type_max_size) = " + digits
    requires '\n' !in mid && digits != [] && AllDigits(digits) && ParseNat(digits) != 0
    ensures PlainFieldLine(f, fieldName) == Some("uint8[" + NatToString(ParseNat(digits)) + "] " + fieldName)
  {
    FixedSizeFound(f.options, mid, digits);
  }

  /** The name of the `.msg` file a type is finally written to: an acronym of its hint is prefixed after a self-collision. */
  predicate IsFinalName(finalName: string, name: string, hint: string)
  {
    finalName == name || finalName == HintToAcronym(hint) + name
  }

  /**
   * The generator's state: the registry of generated names, the files
   * written so far as lines, the manifest records and the warning log.
   */
  class Generator {
    const schema: Schema
    var registry: Registry
    var files: map<string, seq<string>>
    var manifest: seq<Record>
    var warnings: seq<Warning>

    constructor (schema: Schema, registry: Registry)
      ensures this.schema == schema && this.registry == registry
      ensures files == map[] && manifest == [] && warnings == []
    {
      this.schema := schema;
      this.registry := registry;
      files := map[];
      manifest := [];
      warnings := [];
    }

    /** Appends a warning to the log when there is one. */
    method Log(w: Option<Warning>)
      modifies this`warnings
      ensures warnings == old(warnings) + (if w.Some? then [w.value] else [])
    {
      if w.Some? {
        warnings := warnings + [w.value];
      }
    }

    /** The state only grew since `r0`, `m0` and `w0`; the manifest only when records are kept. */
    predicate Grown(r0: Registry, m0: seq<Record>, w0: seq<Warning>, recordManifest: bool)
      reads this
    {
      Extends(registry, r0) && m0 <= manifest && w0 <= warnings && (!recordManifest ==> manifest == m0)
    }

    /** The last record of the manifest is the one of `name` generated for `attrType`. */
    predicate LastRecorded(name: string, attrType: string, eventName: string, hint: string)
      reads this
    {
      |manifest| > 0
      && manifest[|manifest| - 1] == Record(Some(name + ".msg"), Some(attrType), Some(eventName), Some(hint))
    }

    /**
     * Generates the `.msg` file of `attrType` and, depth first, of every
     * nested message type it uses. Returns false when generation stopped
     * early: an enum without values (on which the source raises) or
     * `fuel` exhausted by nesting deeper than `fuel` levels.
     */
    method GenerateMsgType(attrType: string, topicHint: string, rosFilename: string, eventName: string,
                           topLevel: bool, recordManifest: bool, fuel: nat)
      returns (completed: bool)
      modifies this
      ensures Grown(old(registry), old(manifest), old(warnings), recordManifest)
      ensures fuel == 0 ==>
        !completed && registry == old(registry) && files == old(files)
        && manifest == old(manifest) && warnings == old(warnings)
      ensures var block := LookupBlock(schema, LastSegment(attrType, '.'), topicHint, topLevel);
        var r := ResolveConflict(rosFilename, topicHint, old(registry));
        fuel > 0 && (block.None? || !r.1) ==>
          completed && registry == old(registry) && files == old(files) && manifest == old(manifest)
          && warnings == old(warnings)
             + [if block.None? then BlockNotFound(LastSegment(attrType, '.'))
                else ResolveWarning(rosFilename, topicHint, old(registry)).value]
      ensures var block := LookupBlock(schema, LastSegment(attrType, '.'), topicHint, topLevel);
        var r := ResolveConflict(rosFilename, topicHint, old(registry));
        fuel > 0 && block.Some? && r.1 ==>
          r.0 !in old(registry) && r.0 in registry && registry[r.0] == topicHint
          && (completed ==> Written(r.0, attrType, eventName, topicHint, topLevel, recordManifest))
      decreases fuel, 6
    {
      if fuel == 0 {
        completed := false;
      } else {
        var baseType := LastSegment(attrType, '.');
        var block := LookupBlock(schema, baseType, topicHint, topLevel);
        if block.None? {
          warnings := warnings + [BlockNotFound(baseType)];
          completed := true;
        } else {
          var outputFilename, shouldGenerate, w := ResolveOutputFilenameConflict(rosFilename, topicHint, registry);
          Log(w);
          if !shouldGenerate {
            completed := true;
          } else {
            completed := WriteFile(block.value, outputFilename, attrType, topicHint, eventName, topLevel,
                                   recordManifest, fuel);
          }
        }
      }
    }

    /** The file of `name` is written, under its own name or with the hint's acronym, and recorded last. */
    predicate Written(name: string, attrType: string, eventName: string, hint: string, topLevel: bool,
                      recordManifest: bool)
      reads this
    {
      exists f :: IsFinalName(f, name, hint) && f in files
        && (topLevel ==> |files[f]| > 0 && files[f][0] == HeaderLine)
        && (recordManifest ==> LastRecorded(f, attrType, eventName, hint))
    }

    /**
     * Registers `outputFilename` for `topicHint`, writes its file from the
     * fields of `block`, renames it when a nested type took its name, and
     * appends its manifest record.
     */
    method WriteFile(block: string, outputFilename: string, attrType: string, topicHint: string,
                     eventName: string, topLevel: bool, recordManifest: bool, fuel: nat)
      returns (completed: bool)
      requires fuel > 0 && outputFilename !in registry
      modifies this
      ensures Grown(old(registry), old(manifest), old(warnings), recordManifest)
      ensures outputFilename in registry && registry[outputFilename] == topicHint
      ensures completed ==> Written(outputFilename, attrType, eventName, topicHint, topLevel, recordManifest)
      decreases fuel, 5
    {
      ExtendsFresh(registry, outputFilename, topicHint);
      registry := registry[outputFilename := topicHint];
      ghost var registered := registry;
      var lines, finalOutputFilename;
      lines, finalOutputFilename, completed :=
        WriteBody(FieldsFrom(block, 0), outputFilename, topicHint, topLevel, recordManifest, fuel);
      ExtendsTransitive(registry, registered, old(registry));
      files := files[outputFilename := lines];
      if completed {
        StoreFile(outputFilename, finalOutputFilename, lines, attrType, eventName, topicHint, topLevel, recordManifest);
      }
    }

    /**
     * Moves the written file to its final name and appends its manifest
     * record: the file is then written under a name the hint allows.
     */
    method StoreFile(outputFilename: string, finalOutputFilename: string, lines: seq<string>, attrType: string,
                     eventName: string, topicHint: string, topLevel: bool, recordManifest: bool)
      requires IsFinalName(finalOutputFilename, outputFilename, topicHint)
      requires topLevel ==> |lines| > 0 && lines[0] == HeaderLine
      modifies this
      ensures registry == old(registry) && warnings == old(warnings)
      ensures files == (old(files) - {outputFilename})[finalOutputFilename := lines]
      ensures manifest == old(manifest)
                          + (if recordManifest
                             then [Record(Some(finalOutputFilename + ".msg"), Some(attrType), Some(eventName), Some(topicHint))]
                             else [])
      ensures Written(outputFilename, attrType, eventName, topicHint, topLevel, recordManifest)
    {
      files := (files - {outputFilename})[finalOutputFilename := lines];
      if recordManifest {
        manifest := manifest + [Record(Some(finalOutputFilename + ".msg"), Some(attrType), Some(eventName), Some(topicHint))];
        assert LastRecorded(finalOutputFilename, attrType, eventName, topicHint);
      } else {
        assert manifest == old(manifest) + [];
      }
      assert finalOutputFilename in files && files[finalOutputFilename] == lines;
    }

    /**
     * The lines of the file `outputFilename`, field by field, and the name
     * it is finally written under; false when a field stopped generation.
     */
    method WriteBody(fields: seq<Field>, outputFilename: string, topicHint: string, topLevel: bool,
                     recordManifest: bool, fuel: nat)
      returns (lines: seq<string>, finalOutputFilename: string, ok: bool)
      requires fuel > 0
      requires outputFilename in registry && registry[outputFilename] == topicHint
      modifies this
      ensures Grown(old(registry), old(manifest), old(warnings), recordManifest)
      ensures outputFilename in registry && registry[outputFilename] == topicHint
      ensures IsFinalName(finalOutputFilename, outputFilename, topicHint)
      ensures topLevel ==> |lines| > 0 && lines[0] == HeaderLine
      decreases fuel, 4
    {
      finalOutputFilename := outputFilename;
      var usedEnums: set<string> := {};
      lines := if topLevel then [HeaderLine] else [];
      ok := true;
      var i := 0;
      while i < |fields| && ok
        invariant 0 <= i <= |fields|
        invariant Grown(old(registry), old(manifest), old(warnings), recordManifest)
        invariant outputFilename in registry && registry[outputFilename] == topicHint
        invariant IsFinalName(finalOutputFilename, outputFilename, topicHint)
        invariant topLevel ==> |lines| > 0 && lines[0] == HeaderLine
      {
        var fieldLines, selfCollision;
        fieldLines, usedEnums, selfCollision, ok :=
          WriteField(fields[i], outputFilename, topicHint, usedEnums, recordManifest, fuel);
        lines := lines + fieldLines;
        if selfCollision {
          finalOutputFilename := HintToAcronym(topicHint) + outputFilename;
        }
        i := i + 1;
      }
    }

    /**
     * The lines of one field of the file `outputFilename`: a `bytes` or
     * primitive line, the enum lines, or the line of a nested message type.
     */
    method WriteField(f: Field, outputFilename: string, topicHint: string, usedEnums: set<string>,
                      recordManifest: bool, fuel: nat)
      returns (fieldLines: seq<string>, used: set<string>, selfCollision: bool, ok: bool)
      requires fuel > 0
      requires outputFilename in registry && registry[outputFilename] == topicHint
      modifies this
      ensures Grown(old(registry), old(manifest), old(warnings), recordManifest)
      ensures outputFilename in registry && registry[outputFilename] == topicHint
      ensures selfCollision ==> ok
      decreases fuel, 3
    {
      var fieldName := NameField(f, outputFilename);
      ghost var r1, m1, w1 := registry, manifest, warnings;
      if f.fieldType == "bytes" || IsPrimitiveType(f.fieldType) {
        fieldLines := WritePlainField(f, fieldName, outputFilename);
        used, selfCollision, ok := usedEnums, false, true;
      } else {
        fieldLines, used, selfCollision, ok :=
          WriteTypedField(f, fieldName, outputFilename, topicHint, usedEnums, recordManifest, fuel);
        GrowthComposes(registry, r1, old(registry), manifest, m1, old(manifest), warnings, w1, old(warnings));
      }
    }

    /** The name a field is written under, logging a warning when it had to be cut. */
    method NameField(f: Field, outputFilename: string) returns (fieldName: string)
      modifies this`warnings
      ensures fieldName == WrittenFieldName(f.name)
      ensures warnings == old(warnings) + (if fieldName != f.name then [FieldNameTooLong(f.name, outputFilename, fieldName)] else [])
    {
      fieldName := WrittenFieldName(f.name);
      if fieldName != f.name {
        warnings := warnings + [FieldNameTooLong(f.name, outputFilename, fieldName)];
      }
    }

    /**
     * What a field of an enum or message type is written as: the enum output when
     * enum blocks named by the type's last segment exist, and otherwise the one
     * line made of the resolved message name, the suffix and the field name.
     */
    predicate TypedFieldOutput(schema: Schema, f: Field, fieldName: string, usedEnums: set<string>,
                               registry: Registry, fieldLines: seq<string>, used: set<string>,
                               selfCollision: bool, ok: bool)
    {
      var subBase := LastSegment(f.fieldType, '.');
      var enums := EnumBlocksIn(schema.corpus, subBase);
      if enums != [] then
        var out := EnumFieldOutput(Flatten(enums), subBase, SuffixOf(f), fieldName, usedEnums);
        fieldLines == out.lines && used == out.used && ok == out.ok && !selfCollision
      else
        var hintTopic := Before(schema.protoFileOf(subBase, ComputeTopicHint2(f.fieldType)), '.');
        fieldLines == [ResolveConflict(subBase, hintTopic, registry).0 + (SuffixOf(f) + " " + fieldName)]
        && used == usedEnums
    }

    /** The lines of a field whose type is an enum or a message, found by the type's last segment. */
    method WriteTypedField(f: Field, fieldName: string, outputFilename: string, topicHint: string,
                           usedEnums: set<string>, recordManifest: bool, fuel: nat)
      returns (fieldLines: seq<string>, used: set<string>, selfCollision: bool, ok: bool)
      requires fuel > 0
      requires outputFilename in registry && registry[outputFilename] == topicHint
      modifies this
      ensures Grown(old(registry), old(manifest), old(warnings), recordManifest)
      ensures outputFilename in registry && registry[outputFilename] == topicHint
      ensures selfCollision ==> ok
      ensures TypedFieldOutput(schema, f, fieldName, usedEnums, old(registry), fieldLines, used, selfCollision, ok)
      decreases fuel, 2
    {
      var subBase := LastSegment(f.fieldType, '.');
      var enums := FindEnumBlocks(schema.corpus, subBase);
      if enums != [] {
        fieldLines, used, ok := WriteEnumField(Flatten(enums), subBase, SuffixOf(f), fieldName, usedEnums);
        selfCollision := false;
      } else {
        var hintTopic := Before(schema.protoFileOf(subBase, ComputeTopicHint2(f.fieldType)), '.');
        fieldLines, selfCollision, ok :=
          WriteMessageField(subBase, hintTopic, SuffixOf(f) + " " + fieldName, outputFilename, topicHint,
                            recordManifest, fuel);
        used := usedEnums;
      }
    }

    /** The line of a `bytes` or primitive field; a `raw_bytes` field is skipped with a warning. */
    method WritePlainField(f: Field, fieldName: string, outputFilename: string) returns (fieldLines: seq<string>)
      modifies this`warnings
      ensures var line := PlainFieldLine(f, fieldName);
        fieldLines == (if line.Some? then [line.value] else [])
        && warnings == old(warnings) + (if line.Some? then [] else [OneofBytes(fieldName, outputFilename)])
    {
      var line := PlainFieldLine(f, fieldName);
      if line.Some? {
        fieldLines := [line.value];
      } else {
        fieldLines := [];
        warnings := warnings + [OneofBytes(fieldName, outputFilename)];
      }
    }

    /** The enum lines of a field, logging what the enum blocks log. */
    method WriteEnumField(found: seq<(string, string)>, subBase: string, suffix: string, fieldName: string,
                          usedEnums: set<string>)
      returns (fieldLines: seq<string>, used: set<string>, ok: bool)
      modifies this`warnings
      ensures var out := EnumFieldOutput(found, subBase, suffix, fieldName, usedEnums);
        fieldLines == out.lines && used == out.used && ok == out.ok && warnings == old(warnings) + out.warnings
    {
      var out := EnumFieldLines(found, subBase, suffix, fieldName, usedEnums);
      fieldLines, used, ok := out.lines, out.used, out.ok;
      warnings := warnings + out.warnings;
    }
    /**
     * The line of a field whose type is the message `subBase`, under the
     * name the resolver gives it for `hintTopic`; the type is generated
     * first when the resolver allows it. `selfCollision` says the nested
     * type has the file's own name under another hint, and the file's name
     * is then registered again to its own hint.
     */
    method WriteMessageField(subBase: string, hintTopic: string, rest: string, outputFilename: string,
                             topicHint: string, recordManifest: bool, fuel: nat)
      returns (fieldLines: seq<string>, selfCollision: bool, ok: bool)
      requires fuel > 0
      requires outputFilename in registry && registry[outputFilename] == topicHint
      modifies this
      ensures Grown(old(registry), old(manifest), old(warnings), recordManifest)
      ensures outputFilename in registry && registry[outputFilename] == topicHint
      ensures fieldLines == [ResolveConflict(subBase, hintTopic, old(registry)).0 + rest]
      ensures !ResolveConflict(subBase, hintTopic, old(registry)).1 ==>
        ok && !selfCollision && registry == old(registry) && files == old(files) && manifest == old(manifest)
      ensures selfCollision <==> ok && ResolveConflict(subBase, hintTopic, old(registry)).1
                                 && subBase == outputFilename && hintTopic != topicHint
      decreases fuel, 1
    {
      var outputType, shouldGen, w := ResolveOutputFilenameConflict(subBase, hintTopic, registry);
      Log(w);
      fieldLines := [outputType + rest];
      selfCollision := false;
      ok := true;
      if shouldGen {
        ghost var r1, m1, w1 := registry, manifest, warnings;
        selfCollision, ok := GenerateNested(subBase, hintTopic, outputType, outputFilename, topicHint, recordManifest, fuel);
        GrowthComposes(registry, r1, old(registry), manifest, m1, old(manifest), warnings, w1, old(warnings));
      }
    }

    /**
     * Generates the nested type `subBase` under the granted name
     * `outputType`; when it has the open file's own name under another
     * hint, that name is registered again to the file's hint.
     */
    method GenerateNested(subBase: string, hintTopic: string, outputType: string, outputFilename: string,
                          topicHint: string, recordManifest: bool, fuel: nat)
      returns (selfCollision: bool, ok: bool)
      requires fuel > 0
      requires outputFilename in registry && registry[outputFilename] == topicHint
      modifies this
      ensures Grown(old(registry), old(manifest), old(warnings), recordManifest)
      ensures outputFilename in registry && registry[outputFilename] == topicHint
      ensures selfCollision <==> ok && subBase == outputFilename && hintTopic != topicHint
      decreases fuel, 0
    {
      ok := GenerateMsgType(subBase, hintTopic, outputType, "", false, recordManifest, fuel - 1);
      selfCollision := false;
      if ok && subBase == outputFilename && hintTopic != topicHint {
        selfCollision := true;
        ReRegisterSame(registry, outputFilename, topicHint);
        registry := registry[outputFilename := topicHint];
      }
    }
  }
}
