/** The edge-list text box: the text is cut into lines, each line into space-separated tokens,
    and every line whose first two tokens are numeric adds its two nodes and a link to the
    store. jQuery's `$.isNumeric` and JavaScript's unary `+` are the parameters `isNumeric`
    and `toNum`: nothing is assumed about them beyond `toNum` returning an integer. */
module EdgeListParser {
  import opened Values
  import opened GraphStore

  /** `s.split(sep)` for a one-character separator: the pieces between separators, in order. */
  function Split(s: string, sep: char): (r: seq<string>)
    ensures |r| >= 1
    ensures forall k :: 0 <= k < |r| ==> sep !in r[k]
    decreases |s|
  {
    if |s| == 0 then [""]
    else
      var rest := Split(s[1..], sep);
      if s[0] == sep then [""] + rest
      else [[s[0]] + rest[0]] + rest[1..]
  }

  /** `parts.join(sep)`. */
  function Join(parts: seq<string>, sep: char): string
    requires |parts| >= 1
    decreases |parts|
  {
    if |parts| == 1 then parts[0] else parts[0] + [sep] + Join(parts[1..], sep)
  }

  /** Splitting loses nothing: joining the pieces back gives the text. */
  lemma {:induction false} SplitJoin(s: string, sep: char)
    ensures Join(Split(s, sep), sep) == s
    decreases |s|
  {
    if |s| > 0 {
      var rest := Split(s[1..], sep);
      SplitJoin(s[1..], sep);
      if s[0] == sep {
        assert ([""] + rest)[1..] == rest;
      } else {
        assert s == [s[0]] + s[1..];
        if |rest| > 1 {
          assert ([[s[0]] + rest[0]] + rest[1..])[1..] == rest[1..];
        }
      }
    }
  }

  lemma {:induction false} SplitWithoutSeparator(t: string, sep: char)
    requires sep !in t
    ensures Split(t, sep) == [t]
    decreases |t|
  {
    if |t| > 0 {
      SplitWithoutSeparator(t[1..], sep);
      assert t == [t[0]] + t[1..];
    }
  }

  /** The first piece ends at the first separator. */
  lemma {:induction false} SplitAtFirstSeparator(t: string, u: string, sep: char)
    requires sep !in t
    ensures Split(t + [sep] + u, sep) == [t] + Split(u, sep)
    decreases |t|
  {
    var s := t + [sep] + u;
    if |t| == 0 {
      assert s[1..] == u;
    } else {
      assert s[1..] == t[1..] + [sep] + u;
      SplitAtFirstSeparator(t[1..], u, sep);
      assert t == [t[0]] + t[1..];
    }
  }

  /** Joining pieces free of the separator and splitting again gives the pieces back. */
  lemma {:induction false} JoinSplit(parts: seq<string>, sep: char)
    requires |parts| >= 1
    requires forall k :: 0 <= k < |parts| ==> sep !in parts[k]
    ensures Split(Join(parts, sep), sep) == parts
    decreases |parts|
  {
    if |parts| == 1 {
      SplitWithoutSeparator(parts[0], sep);
    } else {
      JoinSplit(parts[1..], sep);
      SplitAtFirstSeparator(parts[0], Join(parts[1..], sep), sep);
      assert parts == [parts[0]] + parts[1..];
    }
  }

  /** `$.isNumeric(edge[k])`: past the last token `edge[k]` is `undefined`, which jQuery
      does not count as numeric. */
  predicate NumericToken(isNumeric: string -> bool, tokens: seq<string>, k: nat)
  {
    k < |tokens| && isNumeric(tokens[k])
  }

  /** What an accepted line asks for: its two endpoints and its weight or `undefined`. */
  datatype EdgeLine = EdgeLine(source: int, destination: int, weight: Value)

  /** One iteration of the loop over lines: empty lines and lines whose first two tokens
      are not both numeric are skipped; a third token that is not numeric, or is missing,
      leaves the weight `undefined`. */
  function ParseLine(line: string, isNumeric: string -> bool, toNum: string -> int): (r: Option<EdgeLine>)
    ensures |line| == 0 ==> r.None?
    ensures r.Some? ==> r.value.weight != NaN
  {
    if |line| == 0 then None
    else
      var tokens := Split(line, ' ');
      if !NumericToken(isNumeric, tokens, 0) || !NumericToken(isNumeric, tokens, 1) then None
      else
        var weight := if NumericToken(isNumeric, tokens, 2) then Number(toNum(tokens[2])) else Undefined;
        Some(EdgeLine(toNum(tokens[0]), toNum(tokens[1]), weight))
  }

  /** A line of one token, with no space, is skipped: it has no second token. */
  lemma SingleTokenSkipped(line: string, isNumeric: string -> bool, toNum: string -> int)
    requires ' ' !in line
    ensures ParseLine(line, isNumeric, toNum) == None
  {
    SplitWithoutSeparator(line, ' ');
  }

  /** A line `a b` is accepted exactly when both tokens are numeric, and is then unweighted. */
  lemma TwoTokenLine(a: string, b: string, isNumeric: string -> bool, toNum: string -> int)
    requires ' ' !in a && ' ' !in b
    ensures ParseLine(a + " " + b, isNumeric, toNum)
            == if isNumeric(a) && isNumeric(b) then Some(EdgeLine(toNum(a), toNum(b), Undefined)) else None
  {
    SplitAtFirstSeparator(a, b, ' ');
    SplitWithoutSeparator(b, ' ');
  }

  /** A line `a b c...` is accepted exactly when `a` and `b` are numeric; `c` is its weight
      when numeric, and whatever follows `c` is ignored. */
  lemma ThreeOrMoreTokenLine(a: string, b: string, c: string, rest: string,
                             isNumeric: string -> bool, toNum: string -> int)
    requires ' ' !in a && ' ' !in b && ' ' !in c
    requires rest == "" || rest[0] == ' '
    ensures ParseLine(a + " " + b + " " + c + rest, isNumeric, toNum)
            == if isNumeric(a) && isNumeric(b)
               then Some(EdgeLine(toNum(a), toNum(b), if isNumeric(c) then Number(toNum(c)) else Undefined))
               else None
  {
    var line := a + " " + b + " " + c + rest;
    var tail := Split(c + rest, ' ');
    if rest == "" {
      SplitWithoutSeparator(c, ' ');
      assert c + rest == c;
    } else {
      assert c + rest == c + [' '] + rest[1..];
      SplitAtFirstSeparator(c, rest[1..], ' ');
    }
    assert tail[0] == c;
    SplitAtFirstSeparator(b, c + rest, ' ');
    var middle := b + [' '] + (c + rest);
    assert Split(middle, ' ') == [b] + tail;
    SplitAtFirstSeparator(a, middle, ' ');
    assert line == a + [' '] + middle;
    var tokens := Split(line, ' ');
    assert tokens == [a] + ([b] + tail);
    assert tokens[0] == a && tokens[1] == b && tokens[2] == c;
  }

  /** Consecutive spaces make an empty token: if the line starts with a space, or has two
      spaces right after its first token, an empty token is in position 0 or 1, and the line
      is skipped unless the empty string counts as numeric. */
  lemma EmptyLeadingTokenSkipped(a: string, u: string, isNumeric: string -> bool, toNum: string -> int)
    requires !isNumeric("")
    requires ' ' !in a
    requires a == "" || (|u| > 0 && u[0] == ' ')
    ensures ParseLine(a + " " + u, isNumeric, toNum) == None
  {
    SplitAtFirstSeparator(a, u, ' ');
    if a != "" {
      assert u == [' '] + u[1..];
      SplitAtFirstSeparator("", u[1..], ' ');
      assert "" + [' '] + u[1..] == u;
    }
  }

  /** The store operations the handler issues. */
  datatype Op = ClearOp | AddNodeOp(id: int) | AddLinkOp(source: int, destination: int, weight: Value)

  /** The three calls an accepted line makes, in order. */
  function LineOps(p: EdgeLine): seq<Op>
  {
    [AddNodeOp(p.source), AddNodeOp(p.destination), AddLinkOp(p.source, p.destination, p.weight)]
  }

  /** The loop over the lines: each line contributes the calls it makes, in input order.
      At most three calls per line, and none of them clears the store. */
  function LinesOps(lines: seq<string>, isNumeric: string -> bool, toNum: string -> int): (ops: seq<Op>)
    ensures |ops| <= 3 * |lines|
    ensures forall k :: 0 <= k < |ops| ==> !ops[k].ClearOp?
    decreases |lines|
  {
    if |lines| == 0 then []
    else
      var here := match ParseLine(lines[0], isNumeric, toNum)
                  case Some(p) => LineOps(p)
                  case None => [];
      var rest := LinesOps(lines[1..], isNumeric, toNum);
      assert forall k :: |here| <= k < |here + rest| ==> (here + rest)[k] == rest[k - |here|];
      here + rest
  }

  /** The `.draw` click handler up to the redraw: clear the store, then the loop over the
      text's lines. */
  function DrawOps(text: string, isNumeric: string -> bool, toNum: string -> int): (ops: seq<Op>)
    ensures |ops| >= 1 && ops[0] == ClearOp
    ensures forall k :: 1 <= k < |ops| ==> !ops[k].ClearOp?
  {
    [ClearOp] + LinesOps(Split(text, '\n'), isNumeric, toNum)
  }

  /** The accepted lines, in input order. */
  function Accepted(lines: seq<string>, isNumeric: string -> bool, toNum: string -> int): (acc: seq<EdgeLine>)
    ensures |acc| <= |lines|
    ensures forall k :: 0 <= k < |acc| ==> acc[k].weight != NaN
    decreases |lines|
  {
    if |lines| == 0 then []
    else
      var here := match ParseLine(lines[0], isNumeric, toNum)
                  case Some(p) => [p]
                  case None => [];
      here + Accepted(lines[1..], isNumeric, toNum)
  }

  /** Three calls per accepted line, in order. */
  function Expand(acc: seq<EdgeLine>): (ops: seq<Op>)
    ensures |ops| == 3 * |acc|
    decreases |acc|
  {
    if |acc| == 0 then [] else LineOps(acc[0]) + Expand(acc[1..])
  }

  lemma ExpandAppend(a: seq<EdgeLine>, b: seq<EdgeLine>)
    ensures Expand(a + b) == Expand(a) + Expand(b)
    decreases |a|
  {
    if |a| == 0 {
      assert a + b == b;
    } else {
      assert (a + b)[0] == a[0];
      assert (a + b)[1..] == a[1..] + b;
      ExpandAppend(a[1..], b);
    }
  }

  /** The loop issues, line after line, exactly the three calls of each accepted line. */
  lemma {:induction false} LinesOpsFollowAcceptedLines(lines: seq<string>, isNumeric: string -> bool,
                                                       toNum: string -> int)
    ensures LinesOps(lines, isNumeric, toNum) == Expand(Accepted(lines, isNumeric, toNum))
    decreases |lines|
  {
    if |lines| > 0 {
      LinesOpsFollowAcceptedLines(lines[1..], isNumeric, toNum);
      var rest := Accepted(lines[1..], isNumeric, toNum);
      match ParseLine(lines[0], isNumeric, toNum)
      case Some(p) =>
        ExpandAppend([p], rest);
        assert Expand([p]) == LineOps(p);
      case None =>
        assert [] + LinesOps(lines[1..], isNumeric, toNum) == LinesOps(lines[1..], isNumeric, toNum);
        assert [] + rest == rest;
    }
  }

  function Apply(s: Store, op: Op): Store
  {
    match op
    case ClearOp => Clear(s)
    case AddNodeOp(id) => AddNode(s, Some(id))
    case AddLinkOp(source, destination, weight) => AddLink(s, source, destination, weight)
  }

  function Run(s: Store, ops: seq<Op>): Store
    decreases |ops|
  {
    if |ops| == 0 then s else Run(Apply(s, ops[0]), ops[1..])
  }

  lemma {:induction false} RunAppend(s: Store, a: seq<Op>, b: seq<Op>)
    ensures Run(s, a + b) == Run(Run(s, a), b)
    decreases |a|
  {
    if |a| == 0 {
      assert a + b == b;
    } else {
      assert (a + b)[0] == a[0];
      assert (a + b)[1..] == a[1..] + b;
      RunAppend(Apply(s, a[0]), a[1..], b);
    }
  }

  /** No store operation touches the gesture flags. */
  lemma {:induction false} RunKeepsFlags(s: Store, ops: seq<Op>)
    ensures Run(s, ops).isAddingNewLink == s.isAddingNewLink
    ensures Run(s, ops).addingLinkFromNode == s.addingLinkFromNode
    ensures Run(s, ops).addedNewLink == s.addedNewLink
    decreases |ops|
  {
    if |ops| > 0 {
      RunKeepsFlags(Apply(s, ops[0]), ops[1..]);
    }
  }

  lemma DrawOpsKeepValid(s: Store, text: string, isNumeric: string -> bool, toNum: string -> int)
    ensures Valid(s) ==> Valid(Run(s, DrawOps(text, isNumeric, toNum)))
  {
    if Valid(s) {
      var lines := Split(text, '\n');
      var acc := Accepted(lines, isNumeric, toNum);
      LinesOpsFollowAcceptedLines(lines, isNumeric, toNum);
      assert DrawOps(text, isNumeric, toNum) == [ClearOp] + Expand(acc);
      RunAppend(s, [ClearOp], Expand(acc));
      assert Run(s, [ClearOp]) == Clear(s);
      RunAcceptedValid(Clear(s), acc);
    }
  }

  /** The store after the `.draw` handler's loop. It keeps the store invariant and leaves the
      gesture flags alone. */
  function Draw(s: Store, text: string, isNumeric: string -> bool, toNum: string -> int): (r: Store)
    ensures Valid(s) ==> Valid(r)
    ensures r.isAddingNewLink == s.isAddingNewLink && r.addingLinkFromNode == s.addingLinkFromNode
            && r.addedNewLink == s.addedNewLink
  {
    DrawOpsKeepValid(s, text, isNumeric, toNum);
    RunKeepsFlags(s, DrawOps(text, isNumeric, toNum));
    Run(s, DrawOps(text, isNumeric, toNum))
  }

  /** The node ids of the accepted lines. */
  function Endpoints(acc: seq<EdgeLine>): set<int>
    decreases |acc|
  {
    if |acc| == 0 then {} else {acc[0].source, acc[0].destination} + Endpoints(acc[1..])
  }

  /** An id is an endpoint exactly when some accepted line names it. */
  lemma {:induction false} EndpointsAreNamedIds(acc: seq<EdgeLine>, x: int)
    ensures x in Endpoints(acc) <==> exists k :: 0 <= k < |acc| && (acc[k].source == x || acc[k].destination == x)
    decreases |acc|
  {
    if |acc| > 0 {
      EndpointsAreNamedIds(acc[1..], x);
      assert forall k :: 1 <= k < |acc| ==> acc[k] == acc[1..][k - 1];
      if x in Endpoints(acc[1..]) {
        var k :| 0 <= k < |acc[1..]| && (acc[1..][k].source == x || acc[1..][k].destination == x);
        assert acc[k + 1] == acc[1..][k];
      }
    }
  }

  /** The link each accepted line adds once both its nodes exist. */
  function LinkOf(p: EdgeLine): Link
  {
    Link(Some(p.source), Some(p.destination), p.weight)
  }

  lemma RunLineOps(s: Store, p: EdgeLine)
    ensures Run(s, LineOps(p))
            == AddLink(AddNode(AddNode(s, Some(p.source)), Some(p.destination)), p.source, p.destination, p.weight)
  {
    var ops := LineOps(p);
    var s1 := AddNode(s, Some(p.source));
    var s2 := AddNode(s1, Some(p.destination));
    var s3 := AddLink(s2, p.source, p.destination, p.weight);
    assert Run(s, ops) == Run(s1, ops[1..]);
    assert Run(s1, ops[1..]) == Run(s2, ops[2..]) by {
      assert ops[1..][0] == ops[1] && ops[1..][1..] == ops[2..];
    }
    assert Run(s2, ops[2..]) == Run(s3, []) by {
      assert ops[2..][0] == ops[2] && ops[2..][1..] == [];
    }
  }

  /** The calls of one accepted line add its two ids and one link between them. */
  lemma LineOpsEffect(s: Store, p: EdgeLine)
    requires Valid(s) && p.weight != NaN
    ensures var r := Run(s, LineOps(p));
      && Valid(r)
      && r.keys == s.keys + {p.source, p.destination}
      && r.links == s.links + [LinkOf(p)]
      && r.isAddingNewLink == s.isAddingNewLink && r.addingLinkFromNode == s.addingLinkFromNode
      && r.addedNewLink == s.addedNewLink
  {
    RunLineOps(s, p);
    var s1 := AddNode(s, Some(p.source));
    var s2 := AddNode(s1, Some(p.destination));
    var r := AddLink(s2, p.source, p.destination, p.weight);
    assert s1.keys == s.keys + {p.source};
    assert s2.keys == s1.keys + {p.destination};
    assert p.source in s2.nodes && p.destination in s2.nodes;
    assert r.links == s2.links + [r.links[|s2.links|]];
    assert r.links[|s2.links|] == LinkOf(p);
  }

  /** The links of the accepted lines, in order. */
  function LinksOf(acc: seq<EdgeLine>): (links: seq<Link>)
    ensures |links| == |acc|
    ensures forall k :: 0 <= k < |acc| ==> links[k] == LinkOf(acc[k])
    decreases |acc|
  {
    if |acc| == 0 then [] else [LinkOf(acc[0])] + LinksOf(acc[1..])
  }

  lemma RunExpandStep(s: Store, acc: seq<EdgeLine>)
    requires |acc| > 0
    ensures Run(s, Expand(acc)) == Run(Run(s, LineOps(acc[0])), Expand(acc[1..]))
  {
    assert Expand(acc) == LineOps(acc[0]) + Expand(acc[1..]);
    RunAppend(s, LineOps(acc[0]), Expand(acc[1..]));
  }

  /** Running the calls of accepted lines keeps the store valid and leaves the gesture alone. */
  lemma {:induction false} RunAcceptedValid(s: Store, acc: seq<EdgeLine>)
    requires Valid(s)
    requires forall k :: 0 <= k < |acc| ==> acc[k].weight != NaN
    ensures Valid(Run(s, Expand(acc)))
    ensures Run(s, Expand(acc)).isAddingNewLink == s.isAddingNewLink
    ensures Run(s, Expand(acc)).addingLinkFromNode == s.addingLinkFromNode
    ensures Run(s, Expand(acc)).addedNewLink == s.addedNewLink
    decreases |acc|
  {
    if |acc| == 0 {
      assert Run(s, Expand(acc)) == s;
    } else {
      LineOpsEffect(s, acc[0]);
      RunExpandStep(s, acc);
      RunAcceptedValid(Run(s, LineOps(acc[0])), acc[1..]);
    }
  }

  /** Running the calls of accepted lines on a valid store adds exactly their ids. */
  lemma {:induction false} RunAcceptedKeys(s: Store, acc: seq<EdgeLine>)
    requires Valid(s)
    requires forall k :: 0 <= k < |acc| ==> acc[k].weight != NaN
    ensures Run(s, Expand(acc)).keys == s.keys + Endpoints(acc)
    decreases |acc|
  {
    if |acc| == 0 {
      assert Run(s, Expand(acc)) == s;
    } else {
      LineOpsEffect(s, acc[0]);
      RunExpandStep(s, acc);
      RunAcceptedKeys(Run(s, LineOps(acc[0])), acc[1..]);
    }
  }

  /** One accepted line's step of `RunAcceptedLinks`. */
  lemma RunAcceptedLinksStep(s: Store, acc: seq<EdgeLine>)
    requires Valid(s) && |acc| > 0 && acc[0].weight != NaN
    ensures Valid(Run(s, LineOps(acc[0])))
    ensures Run(s, Expand(acc)) == Run(Run(s, LineOps(acc[0])), Expand(acc[1..]))
    ensures Run(s, LineOps(acc[0])).links + LinksOf(acc[1..]) == s.links + LinksOf(acc)
  {
    var s1 := Run(s, LineOps(acc[0]));
    LineOpsEffect(s, acc[0]);
    assert s1.links == s.links + [LinkOf(acc[0])];
    RunExpandStep(s, acc);
    calc {
      s1.links + LinksOf(acc[1..]);
      (s.links + [LinkOf(acc[0])]) + LinksOf(acc[1..]);
      s.links + ([LinkOf(acc[0])] + LinksOf(acc[1..]));
      s.links + LinksOf(acc);
    }
  }

  /** Running the calls of accepted lines on a valid store adds, in order, one link per line. */
  lemma {:induction false} RunAcceptedLinks(s: Store, acc: seq<EdgeLine>)
    requires Valid(s)
    requires forall k :: 0 <= k < |acc| ==> acc[k].weight != NaN
    ensures Run(s, Expand(acc)).links == s.links + LinksOf(acc)
    decreases |acc|
  {
    if |acc| == 0 {
      assert Run(s, Expand(acc)) == s;
      assert s.links + LinksOf(acc) == s.links;
    } else {
      RunAcceptedLinksStep(s, acc);
      RunAcceptedLinks(Run(s, LineOps(acc[0])), acc[1..]);
    }
  }

  /** After the handler's loop the store holds exactly the endpoints of the accepted lines, as
      distinct nodes, and one link per accepted line, in input order. */
  lemma DrawBuildsAcceptedGraph(s: Store, text: string, isNumeric: string -> bool, toNum: string -> int)
    requires Valid(s)
    ensures var acc := Accepted(Split(text, '\n'), isNumeric, toNum);
            var r := Draw(s, text, isNumeric, toNum);
      && Valid(r)
      && r.keys == Endpoints(acc)
      && IdSet(r.nodes) == Endpoints(acc)
      && r.links == LinksOf(acc)
  {
    var lines := Split(text, '\n');
    var acc := Accepted(lines, isNumeric, toNum);
    LinesOpsFollowAcceptedLines(lines, isNumeric, toNum);
    var ops := DrawOps(text, isNumeric, toNum);
    assert ops == [ClearOp] + Expand(acc);
    RunAppend(s, [ClearOp], Expand(acc));
    assert Run(s, [ClearOp]) == Clear(s);
    RunAcceptedValid(Clear(s), acc);
    RunAcceptedKeys(Clear(s), acc);
    RunAcceptedLinks(Clear(s), acc);
    assert [] + LinksOf(acc) == LinksOf(acc);
  }

  /** Stores that agree on nodes, keys and links still agree after the same calls. */
  lemma {:induction false} RunIgnoresGestureFlags(s: Store, t: Store, ops: seq<Op>)
    requires s.nodes == t.nodes && s.keys == t.keys && s.links == t.links
    ensures Run(s, ops).nodes == Run(t, ops).nodes
    ensures Run(s, ops).keys == Run(t, ops).keys
    ensures Run(s, ops).links == Run(t, ops).links
    decreases |ops|
  {
    if |ops| > 0 {
      RunIgnoresGestureFlags(Apply(s, ops[0]), Apply(t, ops[0]), ops[1..]);
    }
  }

  /** The store is cleared first: the nodes and links after the handler depend on the text
      alone, not on what the store held before. */
  lemma DrawDependsOnlyOnText(s: Store, t: Store, text: string, isNumeric: string -> bool, toNum: string -> int)
    ensures Draw(s, text, isNumeric, toNum).nodes == Draw(t, text, isNumeric, toNum).nodes
    ensures Draw(s, text, isNumeric, toNum).keys == Draw(t, text, isNumeric, toNum).keys
    ensures Draw(s, text, isNumeric, toNum).links == Draw(t, text, isNumeric, toNum).links
  {
    var ops := DrawOps(text, isNumeric, toNum);
    RunIgnoresGestureFlags(Clear(s), Clear(t), ops[1..]);
    assert ops == [ops[0]] + ops[1..];
    assert Run(s, ops) == Run(Clear(s), ops[1..]);
    assert Run(t, ops) == Run(Clear(t), ops[1..]);
  }
}
