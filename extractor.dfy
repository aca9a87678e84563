/**
 * The interface-document scanners: the `(service, method)` pairs of the
 * `rpc_definition` blocks, the topics of the `event` blocks, and the
 * batch renaming of the extracted interfaces (versioned names and names
 * shared by several topic hints).
 */
module Extractor {
  import opened Text
  import opened Utils
  import opened Index

  // ---------------------------------------------------------------------------
  // Quoted values: `KEY\s*"([^"]+)"`

  /** What `[^"]+` captures: at least one character, none of them a quote. */
  predicate QuotedValue(v: string)
  {
    v != [] && '"' !in v
  }

  /** Length of the run of non-quote characters at `p`. */
  function UnquotedRun(s: string, p: nat): (n: nat)
    requires p <= |s|
    ensures p + n <= |s|
    ensures '"' !in s[p..p + n]
    ensures p + n < |s| ==> s[p + n] == '"'
    decreases |s| - p
  {
    if p < |s| && s[p] != '"' then 1 + UnquotedRun(s, p + 1) else 0
  }

  /** The pattern `KEY\s*"([^"]+)"` matched at `p`: the captured value and the index after the closing quote. */
  function QuotedAt(s: string, p: nat, key: string): (r: Option<(string, nat)>)
    requires p <= |s|
    ensures r.Some? ==> p < r.value.1 <= |s| && QuotedValue(r.value.0) && OccursAt(s, key, p)
  {
    if !OccursAt(s, key, p) then None
    else
      var q := p + |key| + SpaceRun(s, p + |key|);
      if q < |s| && s[q] == '"' then
        var n := UnquotedRun(s, q + 1);
        if n > 0 && q + 1 + n < |s| then Some((s[q + 1..q + 1 + n], q + 2 + n)) else None
      else None
  }

  /** `re.search`: the value of the leftmost match at or after `p`. */
  function QuotedSearch(s: string, p: nat, key: string): (r: Option<string>)
    requires p <= |s|
    ensures r.Some? ==> QuotedValue(r.value)
    decreases |s| - p
  {
    var m := QuotedAt(s, p, key);
    if m.Some? then Some(m.value.0)
    else if p < |s| then QuotedSearch(s, p + 1, key)
    else None
  }

  /** `re.findall`: the values of the successive non-overlapping matches at or after `p`. */
  function QuotedAll(s: string, p: nat, key: string): (r: seq<string>)
    requires p <= |s|
    ensures forall v :: v in r ==> QuotedValue(v)
    decreases |s| - p
  {
    var m := QuotedAt(s, p, key);
    if m.Some? then [m.value.0] + QuotedAll(s, m.value.1, key)
    else if p < |s| then QuotedAll(s, p + 1, key)
    else []
  }

  /** The search finds exactly the first value `findall` lists. */
  lemma {:induction false} SearchFindsFirst(s: string, p: nat, key: string)
    requires p <= |s|
    ensures QuotedSearch(s, p, key) == if QuotedAll(s, p, key) == [] then None else Some(QuotedAll(s, p, key)[0])
    decreases |s| - p
  {
    if QuotedAt(s, p, key).None? && p < |s| {
      SearchFindsFirst(s, p + 1, key);
    }
  }

  /** Without the key in the text there is no value. */
  lemma {:induction false} NoKeyNoValue(s: string, p: nat, key: string)
    requires p <= |s|
    requires !Contains(s, key)
    ensures QuotedAll(s, p, key) == []
    decreases |s| - p
  {
    assert OccursAt(s, key, p) ==> Contains(s, key);
    if p < |s| {
      NoKeyNoValue(s, p + 1, key);
    }
  }

  // ---------------------------------------------------------------------------
  // rpc_definition blocks (extractor_sdvsidl.py:16-45)

  /** A line that opens an rpc block. */
  predicate OpensRpcBlock(line: string)
  {
    Contains(line, "rpc_definition") && '{' in line
  }

  /** `line.count('{') - line.count('}')`. */
  function Balance(line: string): int
  {
    Count(line, '{') - Count(line, '}')
  }

  /** The pairs of one closed block: its service with each method, in order; none without a service. */
  function BlockPairs(block: string): (r: seq<(string, string)>)
    ensures forall x :: x in r ==> QuotedValue(x.0) && QuotedValue(x.1)
  {
    var service := QuotedSearch(block, 0, "rpc_service_name:");
    var methods := QuotedAll(block, 0, "method_vsidl_name:");
    if service.Some? then PairsWith(service.value, methods) else []
  }

  /** The service paired with each method, in order. */
  function PairsWith(service: string, methods: seq<string>): (r: seq<(string, string)>)
    ensures |r| == |methods| && forall k :: 0 <= k < |r| ==> r[k] == (service, methods[k])
  {
    if methods == [] then [] else PairsWith(service, methods[..|methods| - 1]) + [(service, methods[|methods| - 1])]
  }

  /** A block without a service line yields no pair. */
  lemma BlockWithoutService(block: string)
    requires !Contains(block, "rpc_service_name:")
    ensures BlockPairs(block) == []
  {
    NoKeyNoValue(block, 0, "rpc_service_name:");
    SearchFindsFirst(block, 0, "rpc_service_name:");
  }

  /** The scanner's state between lines: inside a block, its running brace count and its lines. */
  datatype RpcState = RpcState(inside: bool, count: int, block: seq<string>)

  /** One line of the scan: the new state and the pairs of a block the line closes. */
  function RpcStep(st: RpcState, line: string): (RpcState, seq<(string, string)>)
  {
    if OpensRpcBlock(line) then (RpcState(true, Balance(line), [line]), [])
    else if st.inside then
      var count := st.count + Balance(line);
      var block := st.block + [line];
      if count == 0 then (RpcState(false, count, []), BlockPairs(Concat(block)))
      else (RpcState(true, count, block), [])
    else (st, [])
  }

  function RpcScan(lines: seq<string>, st: RpcState): (r: seq<(string, string)>)
    ensures forall x :: x in r ==> QuotedValue(x.0) && QuotedValue(x.1)
  {
    if lines == [] then []
    else
      var step := RpcStep(st, lines[0]);
      step.1 + RpcScan(lines[1..], step.0)
  }

  /** The pairs of a document: the scan from outside any block. */
  function RpcPairs(lines: seq<string>): seq<(string, string)>
  {
    RpcScan(lines, RpcState(false, 0, []))
  }

  /** A document where no line opens an rpc block yields no pair. */
  lemma {:induction false} NoRpcBlockNoPairs(lines: seq<string>, st: RpcState)
    requires !st.inside
    requires forall k {:trigger OpensRpcBlock(lines[k])} :: 0 <= k < |lines| ==> !OpensRpcBlock(lines[k])
    ensures RpcScan(lines, st) == []
  {
    if lines != [] {
      NoRpcBlockNoPairs(lines[1..], st);
    }
  }

  /** The running brace count over the lines `ls`. */
  function Balances(ls: seq<string>): int
  {
    if ls == [] then 0 else Balances(ls[..|ls| - 1]) + Balance(ls[|ls| - 1])
  }

  /**
   * A document that is one rpc block, opened on its first line and closed
   * on the first later line that brings the running count back to 0 (its
   * last), yields the pairs of the whole block.
   */
  lemma OneRpcBlock(lines: seq<string>)
    requires |lines| >= 2 && OpensRpcBlock(lines[0])
    requires forall k {:trigger OpensRpcBlock(lines[k])} :: 1 <= k < |lines| ==> !OpensRpcBlock(lines[k])
    requires forall k :: 2 <= k < |lines| ==> Balances(lines[..k]) != 0
    requires Balances(lines) == 0
    ensures RpcPairs(lines) == BlockPairs(Concat(lines))
  {
    FirstLineOpens(lines);
    BlockRest(lines, 1);
  }

  /** A first line that opens a block starts the scan inside it, with that line's count. */
  lemma FirstLineOpens(lines: seq<string>)
    requires |lines| >= 1 && OpensRpcBlock(lines[0])
    ensures RpcPairs(lines) == RpcScan(lines[1..], RpcState(true, Balances(lines[..1]), lines[..1]))
  {
    assert lines[..1] == [lines[0]];
    assert Balances(lines[..1]) == Balance(lines[0]) by {
      assert lines[..1][..0] == [];
    }
    var first := RpcState(true, Balance(lines[0]), [lines[0]]);
    assert RpcStep(RpcState(false, 0, []), lines[0]) == (first, []);
  }

  lemma {:induction false} BlockRest(lines: seq<string>, j: nat)
    requires 1 <= j < |lines|
    requires forall k {:trigger OpensRpcBlock(lines[k])} :: 1 <= k < |lines| ==> !OpensRpcBlock(lines[k])
    requires forall k :: 2 <= k < |lines| ==> Balances(lines[..k]) != 0
    requires Balances(lines) == 0
    ensures RpcScan(lines[j..], RpcState(true, Balances(lines[..j]), lines[..j])) == BlockPairs(Concat(lines))
    decreases |lines| - j
  {
    var st := RpcState(true, Balances(lines[..j]), lines[..j]);
    assert !OpensRpcBlock(lines[j]);
    InsideStep(lines, j);
    RpcScanStep(lines, j, st, []);
    if j + 1 == |lines| {
      assert lines[..j + 1] == lines;
      assert lines[j + 1..] == [];
    } else {
      assert Balances(lines[..j + 1]) != 0;
      BlockRest(lines, j + 1);
    }
  }

  /** Inside a block, a line that opens none adds to the count and to the block, and closes it at 0. */
  lemma InsideStep(lines: seq<string>, j: nat)
    requires j < |lines| && !OpensRpcBlock(lines[j])
    ensures var count := Balances(lines[..j + 1]);
      RpcStep(RpcState(true, Balances(lines[..j]), lines[..j]), lines[j])
      == if count == 0 then (RpcState(false, 0, []), BlockPairs(Concat(lines[..j + 1])))
         else (RpcState(true, count, lines[..j + 1]), [])
  {
    assert lines[..j + 1][..j] == lines[..j];
    assert lines[..j + 1] == lines[..j] + [lines[j]];
  }

  lemma RpcScanStep(lines: seq<string>, i: nat, st: RpcState, acc: seq<(string, string)>)
    requires i < |lines|
    ensures var step := RpcStep(st, lines[i]);
      acc + RpcScan(lines[i..], st) == (acc + step.1) + RpcScan(lines[i + 1..], step.0)
  {
    assert lines[i..][1..] == lines[i + 1..];
    var step := RpcStep(st, lines[i]);
    assert RpcScan(lines[i..], st) == step.1 + RpcScan(lines[i + 1..], step.0);
  }

  /** The pairs of a closed block, one per method name found in it. */
  method PairsOfBlock(blockText: string) returns (pairs: seq<(string, string)>)
    ensures pairs == BlockPairs(blockText)
  {
    var serviceName := QuotedSearch(blockText, 0, "rpc_service_name:");
    var methodMatches := QuotedAll(blockText, 0, "method_vsidl_name:");
    pairs := [];
    if serviceName.Some? {
      pairs := PairEach(serviceName.value, methodMatches);
    }
  }

  /** The loop over the method names of a block that has a service. */
  method PairEach(service: string, methods: seq<string>) returns (pairs: seq<(string, string)>)
    ensures pairs == PairsWith(service, methods)
  {
    pairs := [];
    for j := 0 to |methods|
      invariant pairs == PairsWith(service, methods[..j])
    {
      assert methods[..j + 1][..j] == methods[..j];
      pairs := pairs + [(service, methods[j])];
    }
    assert methods[..|methods|] == methods;
  }

  /** The scanner as the source runs it, line by line. */
  method ExtractRpcMethods(lines: seq<string>) returns (results: seq<(string, string)>)
    ensures results == RpcPairs(lines)
  {
    results := [];
    var insideBlock := false;
    var braceCount := 0;
    var currentBlock: seq<string> := [];
    for i := 0 to |lines|
      invariant RpcPairs(lines) == results + RpcScan(lines[i..], RpcState(insideBlock, braceCount, currentBlock))
    {
      var line := lines[i];
      ghost var step := RpcStep(RpcState(insideBlock, braceCount, currentBlock), line);
      RpcScanStep(lines, i, RpcState(insideBlock, braceCount, currentBlock), results);
      ghost var before := results;
      if OpensRpcBlock(line) {
        insideBlock := true;
        braceCount := Balance(line);
        currentBlock := [line];
      } else if insideBlock {
        currentBlock := currentBlock + [line];
        braceCount := braceCount + Balance(line);
        if braceCount == 0 {
          var pairs := PairsOfBlock(Concat(currentBlock));
          results := results + pairs;
          insideBlock := false;
          currentBlock := [];
        }
      }
      assert step.0 == RpcState(insideBlock, braceCount, currentBlock);
      assert results == before + step.1;
    }
  }

  // ---------------------------------------------------------------------------
  // event blocks and topics (extractor_sdvsidl.py:48-107)

  /** `\bevent\b\s*{` matched at `p`. */
  predicate EventStartAt(s: string, p: nat)
  {
    OccursAt(s, "event", p)
    && (p == 0 || !IsWordChar(s[p - 1]))
    && (p + 5 == |s| || !IsWordChar(s[p + 5]))
    && var q := p + 5 + SpaceRun(s, p + 5); q < |s| && s[q] == '{'
  }

  /** `EVENT_START_RE.search(s[p..])` succeeds. */
  function HasEventStart(s: string, p: nat): (b: bool)
    requires p <= |s|
    decreases |s| - p
  {
    if p == |s| then false else EventStartAt(s, p) || HasEventStart(s, p + 1)
  }

  /** A character of `[\w\.]`. */
  predicate IsTopicChar(c: char) { IsWordChar(c) || c == '.' }

  function TopicRun(s: string, p: nat): (n: nat)
    requires p <= |s|
    ensures p + n <= |s|
    ensures forall i :: p <= i < p + n ==> IsTopicChar(s[i])
    ensures p + n < |s| ==> !IsTopicChar(s[p + n])
    decreases |s| - p
  {
    if p < |s| && IsTopicChar(s[p]) then 1 + TopicRun(s, p + 1) else 0
  }

  function WordRun(s: string, p: nat): (n: nat)
    requires p <= |s|
    ensures p + n <= |s|
    ensures forall i :: p <= i < p + n ==> IsWordChar(s[i])
    ensures p + n < |s| ==> !IsWordChar(s[p + n])
    decreases |s| - p
  {
    if p < |s| && IsWordChar(s[p]) then 1 + WordRun(s, p + 1) else 0
  }

  /** A `topic_name` entry: the dotted topic and the optional `::SUFFIX`. */
  datatype TopicRef = TopicRef(topic: string, suffix: Option<string>)

  /** What `[\w\.]+(?:::(\w+))?` captures: a non-empty topic, and a non-empty word suffix when present. */
  predicate WellFormedRef(t: TopicRef)
  {
    t.topic != [] && AllTopicChars(t.topic)
    && (t.suffix.Some? ==> t.suffix.value != [] && AllWordChars(t.suffix.value))
  }

  predicate AllTopicChars(t: string) { forall i :: 0 <= i < |t| ==> IsTopicChar(t[i]) }

  predicate AllWordChars(t: string) { forall i :: 0 <= i < |t| ==> IsWordChar(t[i]) }

  /**
   * `topic_name:\s*"([\w\.]+)(?:::(\w+))?"` matched at `p`. The topic run
   * is maximal, as a shorter one would leave a topic character where `::`
   * or the quote must follow.
   */
  function TopicAt(s: string, p: nat): (r: Option<(TopicRef, nat)>)
    requires p <= |s|
    ensures r.Some? ==> p < r.value.1 <= |s| && WellFormedRef(r.value.0)
  {
    var key := "topic_name:";
    if !OccursAt(s, key, p) then None
    else
      var q := p + |key| + SpaceRun(s, p + |key|);
      if !(q < |s| && s[q] == '"') then None
      else QuotedTopicAt(s, q + 1)
  }

  /** `([\w\.]+)(?:::(\w+))?"` at `b`, just past the opening quote. */
  function QuotedTopicAt(s: string, b: nat): (r: Option<(TopicRef, nat)>)
    requires b <= |s|
    ensures r.Some? ==> b < r.value.1 <= |s| && WellFormedRef(r.value.0)
  {
    var n := TopicRun(s, b);
    var e := b + n;
    var w := if e + 2 <= |s| && s[e..e + 2] == "::" then WordRun(s, e + 2) else 0;
    if n == 0 then None
    else
      RunSlice(s, b, n);
      if w > 0 && e + 2 + w < |s| && s[e + 2 + w] == '"' then
        WordSlice(s, e + 2, w);
        Some((TopicRef(s[b..e], Some(s[e + 2..e + 2 + w])), e + 3 + w))
      else if e < |s| && s[e] == '"' then Some((TopicRef(s[b..e], None), e + 1))
      else None
  }

  lemma RunSlice(s: string, a: nat, n: nat)
    requires a + n <= |s|
    requires forall i :: a <= i < a + n ==> IsTopicChar(s[i])
    ensures AllTopicChars(s[a..a + n])
  {
  }

  lemma WordSlice(s: string, a: nat, n: nat)
    requires a + n <= |s|
    requires forall i :: a <= i < a + n ==> IsWordChar(s[i])
    ensures AllWordChars(s[a..a + n])
  {
  }

  /** `TOPIC_NAME_RE.finditer` from `p`. */
  function TopicsFrom(s: string, p: nat): (r: seq<TopicRef>)
    requires p <= |s|
    ensures forall t :: t in r ==> WellFormedRef(t)
    decreases |s| - p
  {
    var m := TopicAt(s, p);
    if m.Some? then [m.value.0] + TopicsFrom(s, m.value.1)
    else if p < |s| then TopicsFrom(s, p + 1)
    else []
  }

  /** A topic entry as the scan finds it, with the name of the event block it is in. */
  datatype TopicEntry = TopicEntry(ref: TopicRef, eventName: Option<string>)

  /** The index just past an event block: lines are taken while the running count stays positive. */
  function EventBlockEnd(lines: seq<string>, i: nat, brace: int): (e: nat)
    requires i <= |lines|
    ensures i <= e <= |lines|
    decreases |lines| - i
  {
    if i < |lines| && brace > 0 then EventBlockEnd(lines, i + 1, brace + Balance(lines[i])) else i
  }

  /** The index just past the event block that starts on line `i`. */
  function EventEnd(lines: seq<string>, i: nat): (e: nat)
    requires i < |lines|
    ensures i < e <= |lines|
  {
    EventBlockEnd(lines, i + 1, Balance(lines[i]))
  }

  /** The entries of the event block starting on line `i`: one per topic, all with the block's event name. */
  function EventEntries(lines: seq<string>, i: nat): (r: seq<TopicEntry>)
    requires i < |lines|
  {
    BlockEntries(Concat(lines[i..EventEnd(lines, i)]))
  }

  /** The entries of an event block's text. */
  function BlockEntries(block: string): (r: seq<TopicEntry>)
    ensures forall k :: 0 <= k < |r| ==> r[k].eventName == QuotedSearch(block, 0, "event_name:")
    ensures forall k :: 0 <= k < |r| && r[k].eventName.Some? ==> QuotedValue(r[k].eventName.value)
  {
    EntriesOf(TopicsFrom(block, 0), QuotedSearch(block, 0, "event_name:"))
  }

  /** Each topic reference paired with the same event name, in order. */
  function EntriesOf(topics: seq<TopicRef>, eventName: Option<string>): (r: seq<TopicEntry>)
    ensures |r| == |topics|
    ensures forall k :: 0 <= k < |r| ==> r[k] == TopicEntry(topics[k], eventName)
  {
    if topics == [] then []
    else EntriesOf(topics[..|topics| - 1], eventName) + [TopicEntry(topics[|topics| - 1], eventName)]
  }

  /** The first topic entry of a line outside any event block, without an event name. */
  function LineEntries(line: string): (r: seq<TopicEntry>)
    ensures |r| <= 1
    ensures forall k :: 0 <= k < |r| ==> r[k].eventName.None?
  {
    var found := TopicsFrom(line, 0);
    if found != [] then [TopicEntry(found[0], None)] else []
  }

  /** The entries of the lines from `i` on. */
  function TopicScan(lines: seq<string>, i: nat): (r: seq<TopicEntry>)
    requires i <= |lines|
    decreases |lines| - i
  {
    if i == |lines| then []
    else if HasEventStart(lines[i], 0) then EventEntries(lines, i) + TopicScan(lines, EventEnd(lines, i))
    else LineEntries(lines[i]) + TopicScan(lines, i + 1)
  }

  /** No entry has an event name. */
  predicate NoEventNames(r: seq<TopicEntry>)
  {
    forall k :: 0 <= k < |r| ==> r[k].eventName.None?
  }

  /** Outside event blocks, every entry comes from a line of its own and has no event name. */
  lemma {:induction false} NoEventNoName(lines: seq<string>, i: nat)
    requires i <= |lines|
    requires forall k {:trigger HasEventStart(lines[k], 0)} :: i <= k < |lines| ==> !HasEventStart(lines[k], 0)
    ensures |TopicScan(lines, i)| <= |lines| - i
    ensures NoEventNames(TopicScan(lines, i))
    decreases |lines| - i
  {
    if i < |lines| {
      NoEventNoName(lines, i + 1);
      PlainLineStep(lines, i);
      NoEventNamesAppend(LineEntries(lines[i]), TopicScan(lines, i + 1));
    }
  }

  /** A line that opens no event block contributes its own entries, then the scan goes on with the next line. */
  lemma PlainLineStep(lines: seq<string>, i: nat)
    requires i < |lines| && !HasEventStart(lines[i], 0)
    ensures TopicScan(lines, i) == LineEntries(lines[i]) + TopicScan(lines, i + 1)
  {
  }

  lemma NoEventNamesAppend(a: seq<TopicEntry>, b: seq<TopicEntry>)
    requires |a| <= 1 && forall k :: 0 <= k < |a| ==> a[k].eventName.None?
    requires NoEventNames(b)
    ensures NoEventNames(a + b)
  {
    var both := a + b;
    forall k | 0 <= k < |both| ensures both[k].eventName.None? {
      if k >= |a| {
        assert both[k] == b[k - |a|];
      }
    }
  }

  /** An extracted interface: base type, topic hint, ROS file name and the event it belongs to. */
  datatype Interface = Interface(baseType: string, topicHint: string, rosFilename: string, eventName: Option<string>)

  /**
   * The interface of one topic entry. `hintOf` stands for the proto-file
   * lookup of a base type with the entry's second topic hint.
   */
  function InterfaceOf(t: TopicEntry, hintOf: (string, string) -> string): Interface
  {
    var base := LastSegment(t.ref.topic, '.');
    Interface(base, hintOf(base, ComputeTopicHint2(t.ref.topic)), RosFilenameOf(base, t.ref.suffix), t.eventName)
  }

  /** `base + pascal_case(suffix)` when there is a suffix, else `base`. */
  function RosFilenameOf(base: string, suffix: Option<string>): string
  {
    if suffix.Some? then base + PascalCase(suffix.value) else base
  }

  /**
   * The base type is the last dotted segment of the topic; the ROS file
   * name is the base type followed by the PascalCase of the suffix, and the
   * base type itself without a suffix; the event name is the entry's.
   */
  lemma InterfaceShape(t: TopicEntry, hintOf: (string, string) -> string)
    ensures var x := InterfaceOf(t, hintOf);
      '.' !in x.baseType && EndsWith(t.ref.topic, x.baseType)
      && StartsWith(x.rosFilename, x.baseType)
      && (t.ref.suffix.None? ==> x.rosFilename == x.baseType)
      && (t.ref.suffix.Some? ==> x.rosFilename == x.baseType + PascalCase(t.ref.suffix.value))
      && x.eventName == t.eventName
  {
    var base := LastSegment(t.ref.topic, '.');
    var ros := RosFilenameOf(base, t.ref.suffix);
    assert ros[..|base|] == base;
  }

  /** `f` applied to each element, in order. */
  function Map<A, B>(xs: seq<A>, f: A -> B): (r: seq<B>)
    ensures |r| == |xs|
  {
    if xs == [] then [] else Map(xs[..|xs| - 1], f) + [f(xs[|xs| - 1])]
  }

  lemma MapSnoc<A, B>(s: seq<A>, x: A, f: A -> B)
    ensures Map(s + [x], f) == Map(s, f) + [f(x)]
  {
    assert (s + [x])[..|s|] == s;
  }

  lemma {:induction false} MapAppend<A, B>(a: seq<A>, b: seq<A>, f: A -> B)
    ensures Map(a + b, f) == Map(a, f) + Map(b, f)
    decreases |b|
  {
    if b == [] {
      assert a + b == a;
    } else {
      var c := b[..|b| - 1];
      assert (a + b)[..|a + b| - 1] == a + c;
      MapAppend(a, c, f);
    }
  }

  /** The interface of one entry, as a function value. */
  function InterfaceFn(hintOf: (string, string) -> string): TopicEntry -> Interface
  {
    t => InterfaceOf(t, hintOf)
  }

  /** The interfaces of entries, one per entry, in order. */
  function Apply(entries: seq<TopicEntry>, hintOf: (string, string) -> string): (r: seq<Interface>)
    ensures |r| == |entries|
  {
    Map(entries, InterfaceFn(hintOf))
  }

  lemma ApplySnoc(s: seq<TopicEntry>, x: TopicEntry, hintOf: (string, string) -> string)
    ensures Apply(s + [x], hintOf) == Apply(s, hintOf) + [InterfaceOf(x, hintOf)]
  {
    MapSnoc(s, x, InterfaceFn(hintOf));
  }

  lemma ApplyAppend(a: seq<TopicEntry>, b: seq<TopicEntry>, hintOf: (string, string) -> string)
    ensures Apply(a + b, hintOf) == Apply(a, hintOf) + Apply(b, hintOf)
  {
    MapAppend(a, b, InterfaceFn(hintOf));
  }

  /** The interfaces of a document: one per entry, in order. */
  function Interfaces(lines: seq<string>, hintOf: (string, string) -> string): (r: seq<Interface>)
  {
    Apply(TopicScan(lines, 0), hintOf)
  }

  /** The lines of the event block starting on line `i`, read while the running count stays positive. */
  method ReadEventBlock(lines: seq<string>, i: nat) returns (j: nat, blockLines: seq<string>)
    requires i < |lines|
    ensures j == EventEnd(lines, i) && blockLines == lines[i..j]
  {
    var brace := Balance(lines[i]);
    blockLines := [lines[i]];
    j := i + 1;
    while j < |lines| && brace > 0
      invariant i < j <= |lines|
      invariant EventBlockEnd(lines, j, brace) == EventEnd(lines, i)
      invariant blockLines == lines[i..j]
      decreases |lines| - j
    {
      blockLines := blockLines + [lines[j]];
      brace := brace + Balance(lines[j]);
      j := j + 1;
    }
  }

  /** The interfaces of an event block's text, appended to `acc`. */
  method BlockInterfaces(block: string, hintOf: (string, string) -> string, acc: seq<Interface>)
    returns (interfaces: seq<Interface>)
    ensures interfaces == acc + Apply(BlockEntries(block), hintOf)
  {
    var eventName := QuotedSearch(block, 0, "event_name:");
    var topics := TopicsFrom(block, 0);
    var items := TopicInterfaces(topics, eventName, hintOf);
    interfaces := acc + items;
  }

  /** The interfaces of the topics of one event block, in order. */
  method TopicInterfaces(topics: seq<TopicRef>, eventName: Option<string>, hintOf: (string, string) -> string)
    returns (items: seq<Interface>)
    ensures items == Apply(EntriesOf(topics, eventName), hintOf)
  {
    items := [];
    for k := 0 to |topics|
      invariant items == Apply(EntriesOf(topics[..k], eventName), hintOf)
    {
      EntriesStep(topics, eventName, k, hintOf);
      items := items + [InterfaceOf(TopicEntry(topics[k], eventName), hintOf)];
    }
    assert topics[..|topics|] == topics;
  }

  lemma EntriesStep(topics: seq<TopicRef>, eventName: Option<string>, k: nat, hintOf: (string, string) -> string)
    requires k < |topics|
    ensures Apply(EntriesOf(topics[..k + 1], eventName), hintOf)
            == Apply(EntriesOf(topics[..k], eventName), hintOf) + [InterfaceOf(TopicEntry(topics[k], eventName), hintOf)]
  {
    assert topics[..k + 1][..k] == topics[..k];
    ApplySnoc(EntriesOf(topics[..k], eventName), TopicEntry(topics[k], eventName), hintOf);
  }

  /** The fallback for a line outside any event block: its first topic entry, appended to `acc`. */
  method LineInterfaces(line: string, hintOf: (string, string) -> string, acc: seq<Interface>)
    returns (interfaces: seq<Interface>)
    ensures interfaces == acc + Apply(LineEntries(line), hintOf)
  {
    var topics := TopicsFrom(line, 0);
    interfaces := acc;
    if topics != [] {
      var entry := TopicEntry(topics[0], None);
      ApplySnoc([], entry, hintOf);
      assert LineEntries(line) == [] + [entry];
      interfaces := interfaces + [InterfaceOf(entry, hintOf)];
    }
  }

  /** The next step of the scan from line `i`: the entries of that step and the line after it. */
  function ScanStep(lines: seq<string>, i: nat): (r: (seq<TopicEntry>, nat))
    requires i < |lines|
    ensures i < r.1 <= |lines|
  {
    if HasEventStart(lines[i], 0) then (EventEntries(lines, i), EventEnd(lines, i)) else (LineEntries(lines[i]), i + 1)
  }

  lemma TopicScanStep(lines: seq<string>, i: nat, entries: seq<TopicEntry>)
    requires i < |lines|
    ensures var step := ScanStep(lines, i);
      entries + TopicScan(lines, i) == (entries + step.0) + TopicScan(lines, step.1)
  {
    var step := ScanStep(lines, i);
    assert TopicScan(lines, i) == step.0 + TopicScan(lines, step.1);
  }

  /** One turn of the line loop: an event block or a single line, its interfaces appended to `acc`. */
  method ScanLine(lines: seq<string>, i: nat, hintOf: (string, string) -> string, acc: seq<Interface>)
    returns (interfaces: seq<Interface>, next: nat)
    requires i < |lines|
    ensures interfaces == acc + Apply(ScanStep(lines, i).0, hintOf) && next == ScanStep(lines, i).1
  {
    var line := lines[i];
    if HasEventStart(line, 0) {
      var j, blockLines := ReadEventBlock(lines, i);
      interfaces := BlockInterfaces(Concat(blockLines), hintOf, acc);
      next := j;
    } else {
      interfaces := LineInterfaces(line, hintOf, acc);
      next := i + 1;
    }
  }

  /** The topic scan as the source runs it, with the proto-file lookup as `hintOf`. */
  method ExtractTopics(lines: seq<string>, hintOf: (string, string) -> string) returns (interfaces: seq<Interface>)
    ensures interfaces == Interfaces(lines, hintOf)
  {
    interfaces := [];
    ghost var entries: seq<TopicEntry> := [];
    var i := 0;
    while i < |lines|
      invariant i <= |lines|
      invariant TopicScan(lines, 0) == entries + TopicScan(lines, i)
      invariant interfaces == Apply(entries, hintOf)
      decreases |lines| - i
    {
      ghost var step := ScanStep(lines, i);
      TopicScanStep(lines, i, entries);
      ApplyAppend(entries, step.0, hintOf);
      interfaces, i := ScanLine(lines, i, hintOf, interfaces);
      entries := entries + step.0;
    }
    assert TopicScan(lines, i) == [];
    assert entries + [] == entries;
  }
}
