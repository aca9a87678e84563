/**
 * Block scanning in `.proto` texts (proto_parser.py): a header pattern such
 * as `message\s+NAME\s*{` is searched for, and the block is cut out by
 * counting braces from the start of the header. The directory walk is an
 * ordered sequence of files; a file whose content could not be read or
 * decoded has no content and is skipped.
 */
module ProtoParser {
  import opened Text

  /** One file of the walk: its path, its base name, its text (None when it cannot be read). */
  datatype SourceFile = SourceFile(path: string, name: string, content: Option<string>)

  /** What the header pattern expects after the name. */
  datatype Tail =
    | OpenBrace      // `\s*{`
    | RpcSignature   // `\s*\((.*?)\)\s+returns\s+\((.*?)\)`, with `.` matching newlines

  /** A match of a header pattern: its span, and the two groups of an rpc signature. */
  datatype Match = Match(start: nat, end: nat, request: string, response: string)

  // ---------------------------------------------------------------------------
  // The header patterns

  /** The first `)` at or after `j`. */
  function NextClose(s: string, j: nat): (r: Option<nat>)
    requires j <= |s|
    ensures r.Some? ==> j <= r.value < |s| && s[r.value] == ')' && forall k :: j <= k < r.value ==> s[k] != ')'
    ensures r.None? ==> forall k :: j <= k < |s| ==> s[k] != ')'
    decreases |s| - j
  {
    if j == |s| then None else if s[j] == ')' then Some(j) else NextClose(s, j + 1)
  }

  /** `\)\s+returns\s+\((.*?)\)` at the `)` at `j`: the end of the match and the second group. */
  function ReturnsAt(s: string, j: nat): (r: Option<(nat, string)>)
    requires j < |s| && s[j] == ')'
    ensures r.Some? ==> j < r.value.0 <= |s|
  {
    var w1 := SpaceRun(s, j + 1);
    var k := j + 1 + w1;
    if w1 == 0 || !OccursAt(s, "returns", k) then None
    else
      var w2 := SpaceRun(s, k + 7);
      var o := k + 7 + w2;
      if w2 == 0 || o == |s| || s[o] != '(' then None
      else
        var c := NextClose(s, o + 1);
        if c.None? then None else Some((c.value + 1, s[o + 1..c.value]))
  }

  /**
   * The lazy first group opened at `open`: the first `)` from `j` on after
   * which the rest of the signature matches.
   */
  function FirstGroupFrom(s: string, open: nat, j: nat): (r: Option<(nat, string, string)>)
    requires open < j <= |s|
    ensures r.Some? ==> j < r.value.0 <= |s|
    decreases |s| - j
  {
    var c := NextClose(s, j);
    if c.None? then None
    else
      var rest := ReturnsAt(s, c.value);
      if rest.Some? then Some((rest.value.0, s[open + 1..c.value], rest.value.1))
      else FirstGroupFrom(s, open, c.value + 1)
  }

  /** The part of the pattern after the name, at `r`: the end of the match and the groups. */
  function TailAt(s: string, r: nat, tail: Tail): (m: Option<(nat, string, string)>)
    requires r <= |s|
    ensures m.Some? ==> r < m.value.0 <= |s|
    ensures m.Some? && tail.OpenBrace? ==>
      s[m.value.0 - 1] == '{' && forall i :: r <= i < m.value.0 - 1 ==> IsSpace(s[i])
  {
    var w := SpaceRun(s, r);
    var o := r + w;
    if o == |s| then None
    else if tail.OpenBrace? then (if s[o] == '{' then Some((o + 1, [], [])) else None)
    else if s[o] == '(' then FirstGroupFrom(s, o, o + 1)
    else None
  }

  /**
   * `\s+NAME` followed by the tail after the keyword, at `q`: the greedy `\s+`
   * gives back one character at a time, from `w` down to 1.
   */
  function NameAndTail(s: string, q: nat, w: nat, name: string, tail: Tail): (m: Option<(nat, string, string)>)
    requires q + w <= |s|
    requires forall i :: q <= i < q + w ==> IsSpace(s[i])
    ensures m.Some? ==> q < m.value.0 <= |s|
    decreases w
  {
    if w == 0 then None
    else if OccursAt(s, name, q + w) && TailAt(s, q + w + |name|, tail).Some? then TailAt(s, q + w + |name|, tail)
    else NameAndTail(s, q, w - 1, name, tail)
  }

  /** A match of `KEYWORD\s+NAME<tail>` starting at `p`. */
  function MatchAt(s: string, p: nat, keyword: string, name: string, tail: Tail): (m: Option<Match>)
    requires p <= |s|
    ensures m.Some? ==> m.value.start == p && p + |keyword| < m.value.end <= |s|
  {
    if !OccursAt(s, keyword, p) then None
    else
      var q := p + |keyword|;
      var t := NameAndTail(s, q, SpaceRun(s, q), name, tail);
      if t.Some? then Some(Match(p, t.value.0, t.value.1, t.value.2)) else None
  }

  /** `pattern.search(s, from)`: the leftmost match starting at or after `from`. */
  function Search(s: string, from: nat, keyword: string, name: string, tail: Tail): (m: Option<Match>)
    requires from <= |s|
    ensures m.Some? ==> from <= m.value.start <= |s| && MatchAt(s, m.value.start, keyword, name, tail) == m
    ensures forall p :: from <= p <= |s| && (m.None? || p < m.value.start) ==> MatchAt(s, p, keyword, name, tail).None?
    decreases |s| - from
  {
    var m := MatchAt(s, from, keyword, name, tail);
    if m.Some? then m
    else if from == |s| then None
    else Search(s, from + 1, keyword, name, tail)
  }

  /**
   * The text from `start` to `end` is `KEYWORD`, one or more whitespace
   * characters, exactly `name`, optional whitespace and `{`.
   */
  ghost predicate HeaderShape(s: string, start: nat, end: nat, keyword: string, name: string)
  {
    && start + |keyword| < end <= |s|
    && OccursAt(s, keyword, start)
    && NameThenBrace(s, start + |keyword|, end, name)
  }

  lemma {:induction false} NameAndTailShape(s: string, q: nat, w: nat, name: string)
    requires q + w <= |s|
    requires forall i :: q <= i < q + w ==> IsSpace(s[i])
    requires NameAndTail(s, q, w, name, OpenBrace).Some?
    ensures NameThenBrace(s, q, NameAndTail(s, q, w, name, OpenBrace).value.0, name)
    decreases w
  {
    if OccursAt(s, name, q + w) && TailAt(s, q + w + |name|, OpenBrace).Some? {
      NameFoundAt(s, q, w, name);
    } else {
      assert NameAndTail(s, q, w, name, OpenBrace) == NameAndTail(s, q, w - 1, name, OpenBrace);
      NameAndTailShape(s, q, w - 1, name);
    }
  }

  /** The name right after the `w` whitespace characters, followed by the brace tail. */
  lemma NameFoundAt(s: string, q: nat, w: nat, name: string)
    requires q + w <= |s|
    requires forall i :: q <= i < q + w ==> IsSpace(s[i])
    requires w > 0 && OccursAt(s, name, q + w) && TailAt(s, q + w + |name|, OpenBrace).Some?
    ensures NameAndTail(s, q, w, name, OpenBrace) == TailAt(s, q + w + |name|, OpenBrace)
    ensures NameThenBrace(s, q, TailAt(s, q + w + |name|, OpenBrace).value.0, name)
  {
    var end := TailAt(s, q + w + |name|, OpenBrace).value.0;
    assert NameBetween(s, q, q + w, end, name);
  }

  /** From `q`: whitespace, `name`, whitespace and the `{` that ends at `end`. */
  ghost predicate NameThenBrace(s: string, q: nat, end: nat, name: string)
    requires 0 < end <= |s|
  {
    s[end - 1] == '{' && exists n :: NameBetween(s, q, n, end, name)
  }

  /** `name` at `n`, after whitespace from `q`, and followed by whitespace up to the `{` ending at `end`. */
  predicate NameBetween(s: string, q: nat, n: nat, end: nat, name: string)
    requires end <= |s|
  {
    q < n && n + |name| < end && OccursAt(s, name, n)
    && (forall i :: q <= i < n ==> IsSpace(s[i]))
    && (forall i :: n + |name| <= i < end - 1 ==> IsSpace(s[i]))
  }

  /** Every match of a brace header has the header's shape. */
  lemma HeaderMatchShape(s: string, p: nat, keyword: string, name: string)
    requires p <= |s|
    requires MatchAt(s, p, keyword, name, OpenBrace).Some?
    ensures HeaderShape(s, p, MatchAt(s, p, keyword, name, OpenBrace).value.end, keyword, name)
  {
    var q := p + |keyword|;
    NameAndTailShape(s, q, SpaceRun(s, q), name);
  }

  /** `name` at `n`, after one or more whitespace characters from `q`. */
  predicate NameAfterSpace(s: string, q: nat, n: nat, name: string)
  {
    q < n && OccursAt(s, name, n) && forall i :: q <= i < n ==> IsSpace(s[i])
  }

  /** `\s*\((REQUEST)\)` from `r`: the `(` at `o` and the `)` at `c`. */
  predicate RequestAt(s: string, r: nat, o: nat, c: nat, request: string)
  {
    r <= o < c < |s| && (forall i :: r <= i < o ==> IsSpace(s[i]))
    && s[o] == '(' && s[c] == ')' && request == s[o + 1..c]
  }

  /** `\s+returns\s+\((RESPONSE)\)` after the `)` at `c`, ending at `end`, with no `)` in the response. */
  predicate ReturnsBetween(s: string, c: nat, k: nat, o: nat, end: nat, response: string)
  {
    c + 1 < k && k + 7 < o < end <= |s|
    && (forall i :: c + 1 <= i < k ==> IsSpace(s[i])) && OccursAt(s, "returns", k)
    && (forall i :: k + 7 <= i < o ==> IsSpace(s[i]))
    && s[o] == '(' && s[end - 1] == ')' && response == s[o + 1..end - 1] && ')' !in response
  }

  /** From `r` to `end`: the request in parentheses, `returns`, and the response in parentheses. */
  ghost predicate SignatureShape(s: string, r: nat, end: nat, request: string, response: string)
  {
    exists o, c, k, o2 :: RequestAt(s, r, o, c, request) && ReturnsBetween(s, c, k, o2, end, response)
  }

  /**
   * The text from `start` to `end` is `rpc`, whitespace, exactly `name`, then
   * the signature whose groups are `request` and `response`.
   */
  ghost predicate RpcShape(s: string, start: nat, end: nat, name: string, request: string, response: string)
  {
    && start + 3 < end <= |s|
    && OccursAt(s, "rpc", start)
    && NameAndSignature(s, start + 3, end, name, request, response)
  }

  /** From `q` to `end`: whitespace, exactly `name`, and the signature. */
  ghost predicate NameAndSignature(s: string, q: nat, end: nat, name: string, request: string, response: string)
  {
    exists n: nat :: NameAfterSpace(s, q, n, name) && SignatureShape(s, n + |name|, end, request, response)
  }

  lemma ReturnsAtShape(s: string, c: nat)
    requires c < |s| && s[c] == ')' && ReturnsAt(s, c).Some?
    ensures exists k, o :: ReturnsBetween(s, c, k, o, ReturnsAt(s, c).value.0, ReturnsAt(s, c).value.1)
  {
    var k := c + 1 + SpaceRun(s, c + 1);
    var o := k + 7 + SpaceRun(s, k + 7);
    var close := NextClose(s, o + 1).value;
    var resp := s[o + 1..close];
    forall i | 0 <= i < |resp| ensures resp[i] != ')' {
      assert resp[i] == s[o + 1 + i];
    }
    assert ReturnsBetween(s, c, k, o, close + 1, resp);
  }

  lemma {:induction false} FirstGroupShape(s: string, open: nat, j: nat)
    requires open < j <= |s| && s[open] == '(' && FirstGroupFrom(s, open, j).Some?
    ensures var g := FirstGroupFrom(s, open, j).value;
      exists c, k, o2 :: open < c < |s| && s[c] == ')' && g.1 == s[open + 1..c] && ReturnsBetween(s, c, k, o2, g.0, g.2)
    decreases |s| - j
  {
    var c := NextClose(s, j).value;
    if ReturnsAt(s, c).Some? {
      ReturnsAtShape(s, c);
    } else {
      FirstGroupShape(s, open, c + 1);
    }
  }

  lemma TailShape(s: string, r: nat)
    requires r <= |s| && TailAt(s, r, RpcSignature).Some?
    ensures var t := TailAt(s, r, RpcSignature).value;
      SignatureShape(s, r, t.0, t.1, t.2)
  {
    var o := r + SpaceRun(s, r);
    var t := TailAt(s, r, RpcSignature).value;
    FirstGroupShape(s, o, o + 1);
    var c, k, o2 :| o < c < |s| && s[c] == ')' && t.1 == s[o + 1..c] && ReturnsBetween(s, c, k, o2, t.0, t.2);
    assert RequestAt(s, r, o, c, t.1);
  }

  lemma {:induction false} RpcNameAndTailShape(s: string, q: nat, w: nat, name: string)
    requires q + w <= |s|
    requires forall i :: q <= i < q + w ==> IsSpace(s[i])
    requires NameAndTail(s, q, w, name, RpcSignature).Some?
    ensures var t := NameAndTail(s, q, w, name, RpcSignature).value;
      NameAndSignature(s, q, t.0, name, t.1, t.2)
    decreases w
  {
    if OccursAt(s, name, q + w) && TailAt(s, q + w + |name|, RpcSignature).Some? {
      TailShape(s, q + w + |name|);
      assert NameAfterSpace(s, q, q + w, name);
    } else {
      RpcNameAndTailShape(s, q, w - 1, name);
    }
  }

  /** Every match of an rpc signature has the signature's shape, with the groups it returns. */
  lemma RpcMatchShape(s: string, p: nat, name: string)
    requires p <= |s|
    requires MatchAt(s, p, "rpc", name, RpcSignature).Some?
    ensures var m := MatchAt(s, p, "rpc", name, RpcSignature).value;
      RpcShape(s, p, m.end, name, m.request, m.response)
  {
    var q := p + 3;
    RpcNameAndTailShape(s, q, SpaceRun(s, q), name);
  }

  // ---------------------------------------------------------------------------
  // Cutting a block out by brace counting

  function Delta(c: char): int
  {
    if c == '{' then 1 else if c == '}' then -1 else 0
  }

  /** Opening minus closing braces of `t`. */
  function Depth(t: string): int
  {
    if t == [] then 0 else Delta(t[0]) + Depth(t[1..])
  }

  /** The depth is the difference of the brace counts. */
  lemma {:induction false} DepthIsCountDifference(t: string)
    ensures Depth(t) == Count(t, '{') - Count(t, '}')
  {
    if t != [] {
      DepthIsCountDifference(t[1..]);
      assert t == [t[0]] + t[1..];
      CountAppend([t[0]], t[1..], '{');
      CountAppend([t[0]], t[1..], '}');
    }
  }

  lemma DepthStep(s: string, i: nat, k: nat)
    requires i < k <= |s|
    ensures Depth(s[i..k]) == Delta(s[i]) + Depth(s[i + 1..k])
  {
    assert s[i..k][1..] == s[i + 1..k];
  }

  /**
   * Where the loop of find_message_block stops when started at `i` with
   * `depth` and `inside`: just after the `}` that brings the depth to 0 once a
   * `{` has been seen, or at the end of the text.
   */
  function BlockEnd(s: string, i: nat, depth: int, inside: bool): (e: nat)
    requires i <= |s|
    ensures i <= e <= |s|
    decreases |s| - i
  {
    if i == |s| then i
    else if s[i] == '{' then BlockEnd(s, i + 1, depth + 1, true)
    else if s[i] == '}' then (if depth - 1 == 0 && inside then i + 1 else BlockEnd(s, i + 1, depth - 1, inside))
    else BlockEnd(s, i + 1, depth, inside)
  }

  /** The brace-counting walk from `start` (proto_parser.py:18-31). */
  method ScanBlock(s: string, start: nat) returns (end: nat)
    requires start <= |s|
    ensures end == BlockEnd(s, start, 0, false)
  {
    var braceCount := 0;
    var inside := false;
    end := start;
    while end < |s|
      invariant start <= end <= |s|
      invariant BlockEnd(s, end, braceCount, inside) == BlockEnd(s, start, 0, false)
    {
      var c := s[end];
      if c == '{' {
        braceCount := braceCount + 1;
        inside := true;
      } else if c == '}' {
        braceCount := braceCount - 1;
        if braceCount == 0 && inside {
          end := end + 1;
          return;
        }
      }
      end := end + 1;
    }
  }

  /** No `}` comes before the first `{` from `i` on. */
  predicate OpensFirst(s: string, i: nat)
    requires i <= |s|
  {
    forall j :: i <= j < |s| && s[j] == '}' ==> '{' in s[i..j]
  }

  /** Past the first `{` (or from the start when already inside), every prefix before `e` has a positive depth. */
  predicate PositiveBefore(s: string, i: nat, d: int, inside: bool, e: nat)
    requires i <= |s|
  {
    forall k :: i < k < e && k <= |s| && (inside || '{' in s[i..k]) ==> d + Depth(s[i..k]) > 0
  }

  /** The depth is back to 0 right after a `}` at `e`, once a `{` has been seen. */
  predicate ClosedAt(s: string, i: nat, d: int, inside: bool, e: nat)
    requires i <= |s|
  {
    i < e <= |s| && s[e - 1] == '}' && d + Depth(s[i..e]) == 0 && (inside || '{' in s[i..e])
  }

  lemma ShiftOne(s: string, i: nat, d: int, inside: bool, e: nat)
    requires i < |s|
    ensures PositiveBefore(s, i + 1, d + Delta(s[i]), inside || s[i] == '{', e)
            && (inside || s[i] == '{' ==> d + Delta(s[i]) > 0)
            ==> PositiveBefore(s, i, d, inside, e)
    ensures ClosedAt(s, i + 1, d + Delta(s[i]), inside || s[i] == '{', e) ==> ClosedAt(s, i, d, inside, e)
  {
    forall k | i < k <= |s| ensures Depth(s[i..k]) == Delta(s[i]) + Depth(s[i + 1..k])
                                  && (('{' in s[i..k]) <==> (s[i] == '{' || '{' in s[i + 1..k])) {
      DepthStep(s, i, k);
      assert s[i..k] == [s[i]] + s[i + 1..k];
    }
    assert s[i + 1..i + 1] == [];
  }

  lemma OpensFirstHead(s: string, i: nat, inside: bool)
    requires i < |s|
    requires !inside ==> OpensFirst(s, i)
    ensures inside || s[i] != '}'
  {
    assert s[i..i] == [];
  }

  lemma OpensFirstNext(s: string, i: nat)
    requires i < |s| && OpensFirst(s, i) && s[i] != '{'
    ensures OpensFirst(s, i + 1)
  {
    forall j | i + 1 <= j < |s| && s[j] == '}' ensures '{' in s[i + 1..j] {
      assert '{' in s[i..j];
      assert s[i..j] == [s[i]] + s[i + 1..j];
    }
  }

  /** What BlockEndBalanced promises from `i` on. */
  predicate BalancedFrom(s: string, i: nat, d: int, inside: bool)
    requires i <= |s|
  {
    var e := BlockEnd(s, i, d, inside);
    PositiveBefore(s, i, d, inside, e)
    && (ClosedAt(s, i, d, inside, e) || (e == |s| && PositiveBefore(s, i, d, inside, |s| + 1)))
  }

  /** One step of the walk that does not stop there carries the promise back by one character. */
  lemma BalancedBack(s: string, i: nat, d: int, inside: bool)
    requires i < |s|
    requires inside || s[i] != '}'
    requires !(s[i] == '}' && d - 1 == 0 && inside)
    requires inside || s[i] == '{' ==> d + Delta(s[i]) > 0
    requires BalancedFrom(s, i + 1, d + Delta(s[i]), inside || s[i] == '{')
    ensures BalancedFrom(s, i, d, inside)
  {
    var e := BlockEnd(s, i + 1, d + Delta(s[i]), inside || s[i] == '{');
    assert BlockEnd(s, i, d, inside) == e;
    ShiftOne(s, i, d, inside, e);
    ShiftOne(s, i, d, inside, |s| + 1);
  }

  /**
   * The walk stops at the first point past a `{` where the depth is back to
   * 0, right after a `}`; when there is none it runs to the end of the text,
   * and the depth stays positive all along.
   */
  lemma {:induction false} BlockEndBalanced(s: string, i: nat, d: int, inside: bool)
    requires i <= |s|
    requires inside ==> d > 0
    requires !inside ==> d == 0 && OpensFirst(s, i)
    ensures BalancedFrom(s, i, d, inside)
    decreases |s| - i
  {
    if i < |s| {
      OpensFirstHead(s, i, inside);
      if s[i] == '}' && d - 1 == 0 && inside {
        assert BlockEnd(s, i, d, inside) == i + 1;
        assert s[i..i + 1] == [s[i]];
        assert Depth(s[i..i + 1]) == -1;
      } else {
        if !inside && s[i] != '{' {
          OpensFirstNext(s, i);
        }
        BlockEndBalanced(s, i + 1, d + Delta(s[i]), inside || s[i] == '{');
        BalancedBack(s, i, d, inside);
      }
    }
  }

  /** A brace header whose keyword and name hold no `}` opens before it closes. */
  lemma HeaderOpensFirst(s: string, start: nat, end: nat, keyword: string, name: string)
    requires HeaderShape(s, start, end, keyword, name)
    requires '}' !in keyword && '}' !in name
    ensures OpensFirst(s, start)
  {
    var q := start + |keyword|;
    var n: nat :| NameBetween(s, q, n, end, name);
    forall j | start <= j < end - 1 ensures s[j] != '}' {
      if j < start + |keyword| {
        assert s[j] == keyword[j - start];
      } else if n <= j < n + |name| {
        assert s[j] == name[j - n];
      } else {
        assert IsSpace(s[j]);
      }
    }
    forall j | start <= j < |s| && s[j] == '}' ensures '{' in s[start..j] {
      assert s[start..j][end - 1 - start] == '{';
    }
  }

  /** The block of a header match, from the start of the match. */
  function BlockAt(s: string, m: Match): (b: string)
    requires m.start <= |s|
  {
    s[m.start..BlockEnd(s, m.start, 0, false)]
  }

  /**
   * `b` starts `rest`; every proper prefix of `b` past its first `{` holds
   * more `{` than `}`; and either `b` ends with the `}` that balances the
   * counts, or the braces never balance and `b` is all of `rest`.
   */
  predicate BraceBalanced(rest: string, b: string)
  {
    && StartsWith(rest, b)
    && OpenPrefixes(b, |b|)
    && ((b != [] && b[|b| - 1] == '}' && Count(b, '{') == Count(b, '}'))
        || (|b| == |rest| && OpenPrefixes(b, |b| + 1)))
  }

  /** Every non-empty prefix of `b` shorter than `lim` that holds a `{` holds more `{` than `}`. */
  predicate OpenPrefixes(b: string, lim: nat)
  {
    forall k :: 0 < k < lim && k <= |b| && '{' in b[..k] ==> Count(b[..k], '{') > Count(b[..k], '}')
  }

  /**
   * A block cut at a `message` or `enum` header holds as many `{` as `}`, and
   * the depth of every proper prefix past its first `{` is positive; when the
   * braces never balance, the block runs to the end of the text.
   */
  lemma HeaderBlockBalanced(s: string, p: nat, keyword: string, name: string)
    requires p <= |s| && MatchAt(s, p, keyword, name, OpenBrace).Some?
    requires '}' !in keyword && '}' !in name
    ensures BraceBalanced(s[p..], BlockAt(s, MatchAt(s, p, keyword, name, OpenBrace).value))
  {
    var m := MatchAt(s, p, keyword, name, OpenBrace).value;
    HeaderMatchShape(s, p, keyword, name);
    HeaderOpensFirst(s, p, m.end, keyword, name);
    BlockEndBalanced(s, p, 0, false);
    BalancedBlock(s, p);
    assert BlockAt(s, m) == s[p..BlockEnd(s, p, 0, false)];
  }

  /** What BalancedFrom promises, stated on the block cut from `p` with brace counts. */
  lemma BalancedBlock(s: string, p: nat)
    requires p <= |s| && BalancedFrom(s, p, 0, false)
    ensures BraceBalanced(s[p..], s[p..BlockEnd(s, p, 0, false)])
  {
    var e := BlockEnd(s, p, 0, false);
    var b := s[p..e];
    assert s[p..][..|b|] == b;
    PositivePrefixes(s, p, e, e - p);
    if ClosedAt(s, p, 0, false, e) {
      ClosedBlockCounts(s, p, e);
    } else {
      assert e == |s| && PositiveBefore(s, p, 0, false, |s| + 1);
      PositivePrefixes(s, p, e, e - p + 1);
      assert |b| == |s[p..]|;
    }
  }

  /** A block closed at `e` ends with `}` and holds as many `{` as `}`. */
  lemma ClosedBlockCounts(s: string, p: nat, e: nat)
    requires p <= |s| && ClosedAt(s, p, 0, false, e)
    ensures var b := s[p..e]; b != [] && b[|b| - 1] == '}' && Count(b, '{') == Count(b, '}')
  {
    var b := s[p..e];
    DepthIsCountDifference(b);
    assert b[..|b|] == b;
  }

  /** The prefixes of the block shorter than `lim` past its first `{` hold more `{` than `}`. */
  lemma PositivePrefixes(s: string, p: nat, e: nat, lim: nat)
    requires p <= e <= |s| && lim <= e - p + 1
    requires PositiveBefore(s, p, 0, false, p + lim)
    ensures OpenPrefixes(s[p..e], lim)
  {
    var b := s[p..e];
    forall k | 0 < k < lim && k <= |b| && '{' in b[..k] ensures Count(b[..k], '{') > Count(b[..k], '}') {
      assert b[..k] == s[p..p + k];
      PositivePrefix(s, p, p + lim, k);
    }
  }

  /** A prefix of the block with a positive depth holds more `{` than `}`. */
  lemma PositivePrefix(s: string, p: nat, e: nat, k: nat)
    requires p <= |s| && PositiveBefore(s, p, 0, false, e)
    requires 0 < k && p + k < e && p + k <= |s|
    requires '{' in s[p..p + k]
    ensures var b := s[p..p + k]; Count(b, '{') > Count(b, '}')
  {
    DepthIsCountDifference(s[p..p + k]);
  }

  // ---------------------------------------------------------------------------
  // find_message_block_with_hint, find_message_block

  /** A file the search looks into: a `.proto` name containing the hint, when there is one. */
  predicate Eligible(f: SourceFile, hint: string)
  {
    EndsWith(f.name, ".proto") && (hint == [] || Contains(f.name, hint))
  }

  /** The message block of one file, or None. */
  function MessageInFile(f: SourceFile, name: string, hint: string): (b: Option<string>)
  {
    if !Eligible(f, hint) || f.content.None? then None
    else
      var m := Search(f.content.value, 0, "message", name, OpenBrace);
      if m.None? then None else Some(BlockAt(f.content.value, m.value))
  }

  /** The first present value, in order. */
  function FirstSome<T>(xs: seq<Option<T>>): Option<T>
  {
    if xs == [] then None else if xs[0].Some? then xs[0] else FirstSome(xs[1..])
  }

  /** FirstSome is None exactly when every value is absent, and otherwise the first present one. */
  lemma {:induction false} FirstSomeIsFirst<T>(xs: seq<Option<T>>)
    ensures FirstSome(xs).None? <==> forall k :: 0 <= k < |xs| ==> xs[k].None?
    ensures FirstSome(xs).Some? ==>
      exists k :: 0 <= k < |xs| && xs[k] == FirstSome(xs) && forall j :: 0 <= j < k ==> xs[j].None?
  {
    if xs != [] {
      FirstSomeIsFirst(xs[1..]);
      if xs[0].None? && FirstSome(xs).Some? {
        var k :| 0 <= k < |xs[1..]| && xs[1..][k] == FirstSome(xs) && forall j :: 0 <= j < k ==> xs[1..][j].None?;
        assert xs[k + 1] == FirstSome(xs);
      }
    }
  }

  function MessagesPerFile(files: seq<SourceFile>, name: string, hint: string): (r: seq<Option<string>>)
    ensures |r| == |files| && forall k :: 0 <= k < |files| ==> r[k] == MessageInFile(files[k], name, hint)
  {
    seq(|files|, k requires 0 <= k < |files| => MessageInFile(files[k], name, hint))
  }

  /** The block of the first file, in walk order, that has one. */
  function MessageBlockIn(files: seq<SourceFile>, name: string, hint: string): Option<string>
  {
    FirstSome(MessagesPerFile(files, name, hint))
  }

  /** `find_message_block_with_hint` over the walked files. */
  method FindMessageBlockWithHint(files: seq<SourceFile>, name: string, hint: string) returns (r: Option<string>)
    ensures r == MessageBlockIn(files, name, hint)
  {
    ghost var found := MessagesPerFile(files, name, hint);
    var i := 0;
    while i < |files|
      invariant 0 <= i <= |files|
      invariant FirstSome(found[i..]) == MessageBlockIn(files, name, hint)
    {
      assert found[i..][1..] == found[i + 1..];
      var f := files[i];
      if EndsWith(f.name, ".proto") && (hint == [] || Contains(f.name, hint)) && f.content.Some? {
        var content := f.content.value;
        var m := Search(content, 0, "message", name, OpenBrace);
        if m.Some? {
          var end := ScanBlock(content, m.value.start);
          return Some(content[m.value.start..end]);
        }
      }
      i := i + 1;
    }
    return None;
  }

  /** `find_message_block`: the same search with no hint. */
  method FindMessageBlock(files: seq<SourceFile>, name: string) returns (r: Option<string>)
    ensures r == MessageBlockIn(files, name, [])
  {
    r := FindMessageBlockWithHint(files, name, []);
  }

  /**
   * The search returns the block of the first eligible readable file with a
   * header, and None exactly when no such file exists.
   */
  lemma MessageBlockFirst(files: seq<SourceFile>, name: string, hint: string)
    ensures MessageBlockIn(files, name, hint).None? <==>
      forall k :: 0 <= k < |files| ==> MessageInFile(files[k], name, hint).None?
    ensures MessageBlockIn(files, name, hint).Some? ==>
      exists k :: 0 <= k < |files| && MessageInFile(files[k], name, hint) == MessageBlockIn(files, name, hint)
                  && forall j :: 0 <= j < k ==> MessageInFile(files[j], name, hint).None?
  {
    var found := MessagesPerFile(files, name, hint);
    FirstSomeIsFirst(found);
    if MessageBlockIn(files, name, hint).Some? {
      MessageBlockWitness(files, name, hint);
    }
  }

  lemma MessageBlockWitness(files: seq<SourceFile>, name: string, hint: string)
    requires MessageBlockIn(files, name, hint).Some?
    ensures exists k :: 0 <= k < |files| && MessageInFile(files[k], name, hint) == MessageBlockIn(files, name, hint)
                        && forall j :: 0 <= j < k ==> MessageInFile(files[j], name, hint).None?
  {
    var found := MessagesPerFile(files, name, hint);
    FirstSomeIsFirst(found);
    var k :| 0 <= k < |found| && found[k] == FirstSome(found) && forall j :: 0 <= j < k ==> found[j].None?;
    assert MessageInFile(files[k], name, hint) == MessageBlockIn(files, name, hint);
  }

  /** With no hint every `.proto` file is eligible. */
  lemma EmptyHintEligible(f: SourceFile)
    ensures Eligible(f, []) <==> EndsWith(f.name, ".proto")
  {
  }

  // ---------------------------------------------------------------------------
  // find_enum_blocks

  /** `finditer` of the enum header from `from`: (name, block) per match, in order. */
  function EnumMatches(s: string, name: string, from: nat): (r: seq<(string, string)>)
    requires from <= |s|
    ensures forall k :: 0 <= k < |r| ==> r[k].0 == name
    decreases |s| - from
  {
    var m := Search(s, from, "enum", name, OpenBrace);
    if m.None? then [] else [(name, BlockAt(s, m.value))] + EnumMatches(s, name, m.value.end)
  }

  /** The (path, matches) of every readable `.proto` file with at least one enum header. */
  function EnumBlocksIn(files: seq<SourceFile>, name: string): (r: seq<(string, seq<(string, string)>)>)
  {
    if files == [] then []
    else
      var f := files[0];
      var ms := EnumMatchesOfFile(f, name);
      (if ms != [] then [(f.path, ms)] else []) + EnumBlocksIn(files[1..], name)
  }

  /** The enum blocks of one text, in order. */
  method EnumBlocksOfText(s: string, name: string) returns (matches: seq<(string, string)>)
    ensures matches == EnumMatches(s, name, 0)
  {
    matches := [];
    var pos := 0;
    while pos <= |s|
      invariant 0 <= pos <= |s| + 1
      invariant pos <= |s| ==> matches + EnumMatches(s, name, pos) == EnumMatches(s, name, 0)
      invariant pos > |s| ==> matches == EnumMatches(s, name, 0)
      decreases |s| + 1 - pos
    {
      var m := Search(s, pos, "enum", name, OpenBrace);
      if m.None? {
        return;
      }
      var end := ScanBlock(s, m.value.start);
      matches := matches + [(name, s[m.value.start..end])];
      pos := m.value.end;
    }
  }

  /** The enum matches a file contributes: none unless it is a readable `.proto` file. */
  function EnumMatchesOfFile(f: SourceFile, name: string): seq<(string, string)>
  {
    if EndsWith(f.name, ".proto") && f.content.Some? then EnumMatches(f.content.value, name, 0) else []
  }

  lemma AppendAssociative<T>(a: seq<T>, b: seq<T>, c: seq<T>)
    ensures (a + b) + c == a + (b + c)
  {
  }

  /** `find_enum_blocks` over the walked files. */
  method FindEnumBlocks(files: seq<SourceFile>, name: string) returns (results: seq<(string, seq<(string, string)>)>)
    ensures results == EnumBlocksIn(files, name)
  {
    results := [];
    var i := 0;
    while i < |files|
      invariant 0 <= i <= |files|
      invariant results + EnumBlocksIn(files[i..], name) == EnumBlocksIn(files, name)
    {
      assert files[i..][1..] == files[i + 1..];
      var f := files[i];
      var rest := EnumBlocksIn(files[i + 1..], name);
      ghost var ms := EnumMatchesOfFile(f, name);
      assert EnumBlocksIn(files[i..], name) == (if ms != [] then [(f.path, ms)] else []) + rest;
      var matches := [];
      if EndsWith(f.name, ".proto") && f.content.Some? {
        matches := EnumBlocksOfText(f.content.value, name);
      }
      assert matches == ms;
      if matches != [] {
        AppendAssociative(results, [(f.path, matches)], rest);
        results := results + [(f.path, matches)];
      } else {
        assert [] + rest == rest;
      }
      i := i + 1;
    }
    assert files[i..] == [];
  }

  /**
   * Every listed file has at least one match, every match is named exactly as
   * asked, and a readable `.proto` file with an enum header is listed.
   */
  lemma EnumBlocksListed(files: seq<SourceFile>, name: string)
    ensures EntriesNamed(EnumBlocksIn(files, name), name)
    ensures forall k :: 0 <= k < |files| && HasEnumHeader(files[k], name) ==> PathListed(EnumBlocksIn(files, name), files[k].path)
  {
    EnumBlocksNamed(files, name);
    EnumBlocksCover(files, name);
  }

  /** Every entry has at least one match and every match carries the asked name. */
  predicate EntriesNamed(r: seq<(string, seq<(string, string)>)>, name: string)
  {
    forall k :: 0 <= k < |r| ==> r[k].1 != [] && forall j :: 0 <= j < |r[k].1| ==> r[k].1[j].0 == name
  }

  /** A readable `.proto` file in which an enum header with that name occurs. */
  predicate HasEnumHeader(f: SourceFile, name: string)
  {
    EndsWith(f.name, ".proto") && f.content.Some? && Search(f.content.value, 0, "enum", name, OpenBrace).Some?
  }

  ghost predicate PathListed(r: seq<(string, seq<(string, string)>)>, path: string)
  {
    exists j :: 0 <= j < |r| && r[j].0 == path
  }

  lemma {:induction false} EnumBlocksNamed(files: seq<SourceFile>, name: string)
    ensures EntriesNamed(EnumBlocksIn(files, name), name)
  {
    if files != [] {
      EnumBlocksNamed(files[1..], name);
      var f := files[0];
      var ms := EnumMatchesOfFile(f, name);
      var rest := EnumBlocksIn(files[1..], name);
      var r := EnumBlocksIn(files, name);
      assert r == (if ms != [] then [(f.path, ms)] else []) + rest;
      forall k | 0 <= k < |r|
        ensures r[k].1 != [] && forall j :: 0 <= j < |r[k].1| ==> r[k].1[j].0 == name
      {
        if k < |r| - |rest| {
          assert r[k] == (f.path, ms);
        } else {
          assert r[k] == rest[k - (|r| - |rest|)];
        }
      }
    }
  }

  lemma {:induction false} EnumBlocksCover(files: seq<SourceFile>, name: string)
    ensures forall k :: 0 <= k < |files| && HasEnumHeader(files[k], name) ==> PathListed(EnumBlocksIn(files, name), files[k].path)
  {
    if files != [] {
      EnumBlocksCover(files[1..], name);
      var r := EnumBlocksIn(files, name);
      var rest := EnumBlocksIn(files[1..], name);
      var f := files[0];
      var ms := EnumMatchesOfFile(f, name);
      assert r == (if ms != [] then [(f.path, ms)] else []) + rest;
      forall k | 0 <= k < |files| && HasEnumHeader(files[k], name)
        ensures PathListed(r, files[k].path)
      {
        if k == 0 {
          assert r[0].0 == f.path;
        } else {
          assert files[1..][k - 1] == files[k];
          assert PathListed(rest, files[k].path);
          var j :| 0 <= j < |rest| && rest[j].0 == files[k].path;
          assert r[|r| - |rest| + j] == rest[j];
        }
      }
    }
  }

  // ---------------------------------------------------------------------------
  // find_service_block

  /**
   * Where the walk of find_service_block stops, started after the header's
   * `{` with `count`: when the count reaches 0, or at the end of the text.
   */
  function ServiceEnd(s: string, i: nat, count: int): (e: nat)
    requires i <= |s|
    ensures i <= e <= |s|
    decreases |s| - i
  {
    if i == |s| || count <= 0 then i else ServiceEnd(s, i + 1, count + Delta(s[i]))
  }

  /** The brace-counting walk of a service body (proto_parser.py:145-153). */
  method ScanService(s: string, start: nat) returns (idx: nat)
    requires start <= |s|
    ensures idx == ServiceEnd(s, start, 1)
  {
    var braceCount := 1;
    idx := start;
    while idx < |s| && braceCount > 0
      invariant start <= idx <= |s|
      invariant ServiceEnd(s, idx, braceCount) == ServiceEnd(s, start, 1)
    {
      if s[idx] == '{' {
        braceCount := braceCount + 1;
      } else if s[idx] == '}' {
        braceCount := braceCount - 1;
      }
      idx := idx + 1;
    }
  }

  /**
   * The service walk keeps the count positive until it stops, and it stops
   * either where the count is back to 0 or at the end of the text.
   */
  lemma {:induction false} ServiceEndBalanced(s: string, i: nat, c: int)
    requires i <= |s| && c > 0
    ensures var e := ServiceEnd(s, i, c);
      && (forall k :: i <= k < e ==> c + Depth(s[i..k]) > 0)
      && (c + Depth(s[i..e]) == 0 || (e == |s| && c + Depth(s[i..e]) > 0))
    decreases |s| - i
  {
    if i < |s| {
      forall k | i < k <= |s| ensures Depth(s[i..k]) == Delta(s[i]) + Depth(s[i + 1..k]) {
        DepthStep(s, i, k);
      }
      assert s[i..i] == [];
      if c + Delta(s[i]) > 0 {
        ServiceEndBalanced(s, i + 1, c + Delta(s[i]));
      } else {
        assert ServiceEnd(s, i + 1, c + Delta(s[i])) == i + 1;
      }
    } else {
      assert s[i..i] == [];
    }
  }

  /** The service block of a text: from the header to where the walk stops. */
  function ServiceBlockOf(s: string, service: string): (b: Option<string>)
  {
    var m := Search(s, 0, "service", service, OpenBrace);
    if m.None? then None else Some(s[m.value.start..ServiceEnd(s, m.value.end, 1)])
  }

  /** The stripped (request, response) types of the named rpc in a block. */
  function RpcIn(block: string, rpcName: string): (r: Option<(string, string)>)
    ensures r.Some? ==> Strip(r.value.0) == r.value.0 && Strip(r.value.1) == r.value.1
    ensures var m := Search(block, 0, "rpc", rpcName, RpcSignature);
      (r.Some? <==> m.Some?) && (m.Some? ==> r.value == (Strip(m.value.request), Strip(m.value.response)))
  {
    var m := Search(block, 0, "rpc", rpcName, RpcSignature);
    if m.None? then None
    else
      StripFixed(m.value.request);
      StripFixed(m.value.response);
      Some((Strip(m.value.request), Strip(m.value.response)))
  }

  /** What `RpcIn` returns are the stripped groups of a match of the rpc signature, at the leftmost such match. */
  lemma RpcInShape(block: string, rpcName: string)
    ensures var m := Search(block, 0, "rpc", rpcName, RpcSignature);
      RpcIn(block, rpcName).Some? ==>
        m.Some? && RpcShape(block, m.value.start, m.value.end, rpcName, m.value.request, m.value.response)
        && RpcIn(block, rpcName).value == (Strip(m.value.request), Strip(m.value.response))
  {
    var m := Search(block, 0, "rpc", rpcName, RpcSignature);
    if m.Some? {
      RpcMatchShape(block, m.value.start, rpcName);
    }
  }

  lemma StripFixed(s: string)
    ensures Strip(Strip(s)) == Strip(s)
  {
  }

  /** The signature found in one file, or None. */
  function SignatureInFile(f: SourceFile, rpcName: string, service: string, hint: string): Option<(string, string)>
  {
    if !Eligible(f, hint) || f.content.None? then None
    else
      var b := ServiceBlockOf(f.content.value, service);
      if b.None? then None else RpcIn(b.value, rpcName)
  }

  function SignaturesPerFile(files: seq<SourceFile>, rpcName: string, service: string, hint: string): (r: seq<Option<(string, string)>>)
    ensures |r| == |files| && forall k :: 0 <= k < |files| ==> r[k] == SignatureInFile(files[k], rpcName, service, hint)
  {
    seq(|files|, k requires 0 <= k < |files| => SignatureInFile(files[k], rpcName, service, hint))
  }

  /** The signature of the first file, in walk order, whose service block has the rpc. */
  function ServiceSignatureIn(files: seq<SourceFile>, rpcName: string, service: string, hint: string): Option<(string, string)>
  {
    FirstSome(SignaturesPerFile(files, rpcName, service, hint))
  }

  /**
   * `find_service_block`: the (request, response) types of the rpc `method`
   * inside the service `service`; a file whose service block lacks the rpc
   * does not stop the search. None stands for `(None, None)`.
   */
  method FindServiceBlock(files: seq<SourceFile>, rpcName: string, service: string, hint: string)
    returns (r: Option<(string, string)>)
    ensures r == ServiceSignatureIn(files, rpcName, service, hint)
  {
    ghost var found := SignaturesPerFile(files, rpcName, service, hint);
    var i := 0;
    while i < |files|
      invariant 0 <= i <= |files|
      invariant FirstSome(found[i..]) == ServiceSignatureIn(files, rpcName, service, hint)
    {
      assert found[i..][1..] == found[i + 1..];
      var f := files[i];
      if EndsWith(f.name, ".proto") && (hint == [] || Contains(f.name, hint)) && f.content.Some? {
        var content := f.content.value;
        var m := Search(content, 0, "service", service, OpenBrace);
        if m.Some? {
          var idx := ScanService(content, m.value.end);
          var block := content[m.value.start..idx];
          var sig := RpcIn(block, rpcName);
          if sig.Some? {
            return sig;
          }
        }
      }
      i := i + 1;
    }
    return None;
  }

  /**
   * The signature comes from the first eligible readable file whose service
   * block holds the rpc; it is None exactly when no file does.
   */
  lemma ServiceSignatureFirst(files: seq<SourceFile>, rpcName: string, service: string, hint: string)
    ensures ServiceSignatureIn(files, rpcName, service, hint).None? <==>
      forall k :: 0 <= k < |files| ==> SignatureInFile(files[k], rpcName, service, hint).None?
    ensures ServiceSignatureIn(files, rpcName, service, hint).Some? ==>
      exists k :: 0 <= k < |files| && SignatureInFile(files[k], rpcName, service, hint) == ServiceSignatureIn(files, rpcName, service, hint)
                  && forall j :: 0 <= j < k ==> SignatureInFile(files[j], rpcName, service, hint).None?
  {
    var found := SignaturesPerFile(files, rpcName, service, hint);
    FirstSomeIsFirst(found);
    if ServiceSignatureIn(files, rpcName, service, hint).Some? {
      ServiceSignatureWitness(files, rpcName, service, hint);
    }
  }

  lemma ServiceSignatureWitness(files: seq<SourceFile>, rpcName: string, service: string, hint: string)
    requires ServiceSignatureIn(files, rpcName, service, hint).Some?
    ensures exists k :: 0 <= k < |files| && SignatureInFile(files[k], rpcName, service, hint) == ServiceSignatureIn(files, rpcName, service, hint)
                        && forall j :: 0 <= j < k ==> SignatureInFile(files[j], rpcName, service, hint).None?
  {
    var found := SignaturesPerFile(files, rpcName, service, hint);
    FirstSomeIsFirst(found);
    var k :| 0 <= k < |found| && found[k] == FirstSome(found) && forall j :: 0 <= j < k ==> found[j].None?;
    assert SignatureInFile(files[k], rpcName, service, hint) == ServiceSignatureIn(files, rpcName, service, hint);
  }
}
