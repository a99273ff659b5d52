/**
  Splitting a command line: first into chain pieces at `;`, `&`, `&&` and `||`, then each
  piece into pipe segments, both leaving quoted text alone.
 */
module ShellParse {
  import opened Options
  import opened Text

  datatype Command = Command(line: string, op: Option<string>)

  // ----- the two quote automata -----

  /** Open is the quote character that would close the quotation. */
  datatype Quote = Free | Open(q: char)

  predicate IsQuote(c: char) {
    c == '\'' || c == '"'
  }

  function Step(q: Quote, c: char): Quote {
    if !IsQuote(c) then q
    else if q.Free? then Open(c)
    else if q.q == c then Free
    else q
  }

  /** The chain parser's automaton: a flag and a text, changed only on quote characters. */
  function UpdateQuoteState(c: char, inQuote: bool, quoteChar: string): (bool, string) {
    if !inQuote then (true, [c]) else if [c] == quoteChar then (false, "") else (inQuote, quoteChar)
  }

  /** The pipe splitter's automaton: the open quote character or nothing. */
  function UpdateOpen(c: char, inQuote: Option<char>): Option<char> {
    if inQuote == Some(c) then None else if inQuote == None then Some(c) else inQuote
  }

  function AsFlag(q: Quote): (bool, string) {
    if q.Free? then (false, "") else (true, [q.q])
  }

  function AsOption(q: Quote): Option<char> {
    if q.Free? then None else Some(q.q)
  }

  /** Both automata move as one. */
  lemma AutomataAgree(q: Quote, c: char)
    requires IsQuote(c)
    ensures UpdateQuoteState(c, AsFlag(q).0, AsFlag(q).1) == AsFlag(Step(q, c))
    ensures UpdateOpen(c, AsOption(q)) == AsOption(Step(q, c))
  {
  }

  function After(q: Quote, w: string): Quote
    decreases |w|
  {
    if w == "" then q else After(Step(q, w[0]), w[1..])
  }

  /** Outside quotes, text without quote characters stays outside; a single or a double quote
      opens a quotation that lasts, whatever else it holds, to the next such quote. */
  lemma QuotingExact(w: string, c: char)
    ensures (forall i :: 0 <= i < |w| ==> w[i] != '\'' && w[i] != '"') ==> After(Free, w) == Free
    ensures (c == '\'' || c == '"') && c !in w ==> After(Free, [c] + w) == Open(c) && After(Free, [c] + w + [c]) == Free
  {
    if forall i :: 0 <= i < |w| ==> w[i] != '\'' && w[i] != '"' { Unchanged(Free, w); }
    if (c == '\'' || c == '"') && c !in w {
      assert ([c] + w)[1..] == w;
      Unchanged(Open(c), w);
      AfterAppend(Free, [c] + w, [c]);
      assert [c][1..] == "";
    }
  }

  lemma {:induction false} Unchanged(q: Quote, w: string)
    requires forall i :: 0 <= i < |w| ==> if q.Free? then !IsQuote(w[i]) else w[i] != q.q
    ensures After(q, w) == q
    decreases |w|
  {
    if w != "" { Unchanged(q, w[1..]); }
  }

  // ----- chain pieces -----

  /** A stretch of the line and the operator that ended it. */
  datatype Piece = Piece(text: string, op: Option<string>)

  /** The operator a text starts with. */
  function Operator(s: string): (op: Option<string>)
    ensures op.Some? ==> op.value != "" && op.value <= s && |op.value| <= 2
  {
    if |s| >= 2 && (s[..2] == "&&" || s[..2] == "||") then Some(s[..2])
    else if s != "" && (s[0] == ';' || s[0] == '&') then Some(s[..1])
    else None
  }

  function Pieces(s: string, current: string, q: Quote): (ps: seq<Piece>)
    ensures ps != [] && ps[|ps| - 1].op == None
    decreases |s|
  {
    if s == "" then [Piece(current, None)]
    else if IsQuote(s[0]) then Pieces(s[1..], current + [s[0]], Step(q, s[0]))
    else if q.Free? && Operator(s).Some? then
      var op := Operator(s).value;
      [Piece(current, Some(op))] + Pieces(s[|op|..], "", Free)
    else Pieces(s[1..], current + [s[0]], q)
  }

  /** Pieces are trimmed and blank ones dropped. */
  function Trim(ps: seq<Piece>): seq<Command> {
    if ps == [] then []
    else
      var line := Strip(ps[0].text);
      (if line == "" then [] else [Command(line, ps[0].op)]) + Trim(ps[1..])
  }

  /** The commands of a line. */
  function ParseChain(s: string): seq<Command> {
    Trim(Pieces(s, "", Free))
  }

  function OpText(op: Option<string>): string {
    if op.None? then "" else op.value
  }

  function Joined(ps: seq<Piece>): string {
    if ps == [] then "" else ps[0].text + OpText(ps[0].op) + Joined(ps[1..])
  }

  /** Nothing in `w`, read from the quote state `q`, starts an operator outside quotes. */
  predicate OperatorFree(w: string, q: Quote)
    decreases |w|
  {
    w == "" ||
    ((IsQuote(w[0]) || !q.Free? || Operator(w).None?) && OperatorFree(w[1..], Step(q, w[0])))
  }

  /** The pieces with their operators are the line, character for character. */
  lemma {:induction false} PiecesJoin(s: string, current: string, q: Quote)
    ensures Joined(Pieces(s, current, q)) == current + s
    decreases |s|
  {
    hide Operator;
    if s == "" {
      assert current + "" + "" == current + s;
    } else if IsQuote(s[0]) || !(q.Free? && Operator(s).Some?) {
      PiecesJoin(s[1..], current + [s[0]], Step(q, s[0]));
      assert current + [s[0]] + s[1..] == current + s;
    } else {
      var op := Operator(s).value;
      PiecesJoin(s[|op|..], "", Free);
      assert s == op + s[|op|..];
      assert current + op + ("" + s[|op|..]) == current + s;
    }
  }

  lemma {:induction false} AfterAppend(q: Quote, a: string, b: string)
    ensures After(q, a + b) == After(After(q, a), b)
    decreases |a|
  {
    if a == "" {
      assert a + b == b;
    } else {
      assert (a + b)[1..] == a[1..] + b;
      AfterAppend(Step(q, a[0]), a[1..], b);
    }
  }

  /** Appending one character that does not complete an operator. */
  lemma {:induction false} OperatorFreeAppend(w: string, q: Quote, c: char)
    requires OperatorFree(w, q)
    requires IsQuote(c) || !After(q, w).Free? || (c != ';' && c != '&' && c != '|')
           || (c == '|' && (w == "" || w[|w| - 1] != '|'))
    ensures OperatorFree(w + [c], q)
    decreases |w|
  {
    if w == "" {
      assert w + [c] == [c] && [c][1..] == "";
    } else {
      assert (w + [c])[0] == w[0] && (w + [c])[1..] == w[1..] + [c];
      if |w| == 1 { assert w[1..] == ""; }
      OperatorFreeAppend(w[1..], Step(q, w[0]), c);
    }
  }

  /** Every piece starts outside quotes, so its own quote state is the line's, and holds no
      unquoted operator; every piece that an operator ended also ends outside quotes. */
  lemma {:induction false} PiecesFaithful(s: string, current: string, q: Quote)
    requires After(Free, current) == q && OperatorFree(current, Free)
    requires q.Free? && current != "" && current[|current| - 1] == '|' ==> s == "" || s[0] != '|'
    ensures forall p :: p in Pieces(s, current, q) ==>
      OperatorFree(p.text, Free) && (p.op.Some? ==> After(Free, p.text) == Free)
    decreases |s|
  {
    if s != "" {
      var c := s[0];
      if !IsQuote(c) && q.Free? && Operator(s).Some? {
        PiecesFaithful(s[|Operator(s).value|..], "", Free);
      } else {
        AfterAppend(Free, current, [c]);
        assert [c][1..] == "";
        assert After(q, [c]) == Step(q, c);
        OperatorFreeAppend(current, Free, c);
        PiecesFaithful(s[1..], current + [c], Step(q, c));
      }
    }
  }

  /** The chain level is quote-faithful for every line. */
  lemma ChainFaithful(s: string)
    ensures Joined(Pieces(s, "", Free)) == s
    ensures forall p :: p in Pieces(s, "", Free) ==>
      OperatorFree(p.text, Free) && (p.op.Some? ==> After(Free, p.text) == Free)
  {
    PiecesJoin(s, "", Free);
    PiecesFaithful(s, "", Free);
  }

  /** An operator starts where `;`, `&` or two bars do, and two characters are taken when both
      are the same. */
  lemma OperatorExact(s: string)
    ensures Operator(s) ==
      if s == "" then None
      else if "&&" <= s then Some("&&")
      else if "||" <= s then Some("||")
      else if s[0] == ';' then Some(";")
      else if s[0] == '&' then Some("&")
      else None
  {
    if |s| >= 2 {
      assert s[..2] == [s[0], s[1]];
    }
    if s != "" { assert s[..1] == [s[0]]; }
  }

  /** How many of the first `k` pieces are not blank. */
  function Kept(ps: seq<Piece>, k: nat): (n: nat)
    requires k <= |ps|
    ensures n <= k
  {
    if k == 0 then 0 else Kept(ps, k - 1) + (if Strip(ps[k - 1].text) == "" then 0 else 1)
  }

  lemma {:induction false} KeptStep(ps: seq<Piece>, k: nat)
    requires 0 < k <= |ps|
    ensures Kept(ps, k) == Kept(ps[1..], k - 1) + (if Strip(ps[0].text) == "" then 0 else 1)
    decreases k
  {
    if k > 1 {
      KeptStep(ps, k - 1);
      assert ps[1..][k - 2] == ps[k - 1];
    } else {
      assert Kept(ps, 0) == 0 && Kept(ps[1..], 0) == 0;
    }
  }

  lemma TrimUnfold(ps: seq<Piece>)
    requires ps != []
    ensures
      var line := Strip(ps[0].text);
      Trim(ps) == (if line == "" then [] else [Command(line, ps[0].op)]) + Trim(ps[1..])
  {
  }

  lemma {:induction false} TrimLength(ps: seq<Piece>)
    ensures |Trim(ps)| == Kept(ps, |ps|)
    decreases |ps|
  {
    hide Strip;
    if ps != [] {
      TrimLength(ps[1..]);
      KeptStep(ps, |ps|);
    }
  }

  lemma {:induction false} KeptGrows(ps: seq<Piece>, i: nat, k: nat)
    requires i < k <= |ps| && Strip(ps[i].text) != ""
    ensures Kept(ps, i) < Kept(ps, k)
    decreases k
  {
    hide Strip;
    if i < k - 1 { KeptGrows(ps, i, k - 1); }
  }

  /** The commands of a line are its pieces that are not blank, stripped, in order, each with
      its operator. */
  lemma {:induction false} TrimExact(ps: seq<Piece>, i: nat)
    requires i < |ps| && Strip(ps[i].text) != ""
    ensures |Trim(ps)| == Kept(ps, |ps|) && Kept(ps, i) < |Trim(ps)|
    ensures Trim(ps)[Kept(ps, i)] == Command(Strip(ps[i].text), ps[i].op)
    decreases |ps|
  {
    hide Strip, Trim;
    TrimLength(ps);
    KeptGrows(ps, i, |ps|);
    TrimUnfold(ps);
    if i > 0 {
      KeptStep(ps, i);
      assert ps[1..][i - 1] == ps[i];
      TrimExact(ps[1..], i - 1);
    }
  }

  /** The segments of a pipeline are its parts, stripped, blank ones too but for a last one. */
  lemma {:induction false} TrimSegmentsExact(parts: seq<string>)
    requires parts != []
    ensures |TrimSegments(parts)| == |parts| - (if Strip(parts[|parts| - 1]) == "" then 1 else 0)
    ensures forall i :: 0 <= i < |TrimSegments(parts)| ==> TrimSegments(parts)[i] == Strip(parts[i])
    decreases |parts|
  {
    hide Strip;
    if |parts| > 1 {
      TrimSegmentsExact(parts[1..]);
    }
  }

  /** Whatever stands in a quotation is neither split at operators nor at bars. */
  lemma QuotedIsWhole(w: string, c: char)
    requires (c == '\'' || c == '"') && c !in w
    ensures Pieces([c] + w + [c], "", Free) == [Piece([c] + w + [c], None)]
    ensures Segments([c] + w + [c], "", Free) == [[c] + w + [c]]
  {
    assert [c] + w + [c] == [c] + (w + [c]) && ([c] + (w + [c]))[1..] == w + [c];
    assert "" + [c] == [c];
    QuotedOn(w, c, [c]);
  }

  lemma {:induction false} QuotedOn(w: string, c: char, current: string)
    requires IsQuote(c) && c !in w
    ensures Pieces(w + [c], current, Open(c)) == [Piece(current + w + [c], None)]
    ensures Segments(w + [c], current, Open(c)) == [current + w + [c]]
    decreases |w|
  {
    if w == "" {
      assert w + [c] == [c] && [c][1..] == "" && current + w + [c] == current + [c];
    } else {
      assert (w + [c])[0] == w[0] && (w + [c])[1..] == w[1..] + [c];
      QuotedOn(w[1..], c, current + [w[0]]);
      assert current + [w[0]] + w[1..] + [c] == current + w + [c];
    }
  }

  // ----- printing and parsing back -----

  /** A command that survives printing: trimmed, with balanced quotes, no unquoted operator. */
  predicate Plain(line: string) {
    Trimmed(line) && After(Free, line) == Free && OperatorFree(line, Free)
  }

  predicate IsOperator(op: string) {
    op == ";" || op == "&" || op == "&&" || op == "||"
  }

  /** Only the last command may lack an operator. */
  predicate Printable(cs: seq<Command>) {
    && (forall i :: 0 <= i < |cs| ==> Plain(cs[i].line))
    && (forall i :: 0 <= i < |cs| ==> cs[i].op.Some? ==> IsOperator(cs[i].op.value))
    && (forall i :: 0 <= i < |cs| - 1 ==> cs[i].op.Some?)
  }

  function Print(cs: seq<Command>): string {
    if cs == [] then ""
    else cs[0].line + " " + (if cs[0].op.None? then "" else cs[0].op.value + " ") + Print(cs[1..])
  }

  lemma OperatorBeforeSpace(w: string, rest: string)
    requires w != ""
    ensures Operator(w + " " + rest) == Operator(w)
  {
    var s := w + " " + rest;
    assert s[0] == w[0] && s[..1] == w[..1];
    if |w| == 1 { assert s[1] == ' '; } else { assert s[..2] == w[..2]; }
  }

  /** Plain text followed by a space is collected into the current piece. */
  lemma {:induction false} Collected(w: string, rest: string, current: string, q: Quote)
    requires OperatorFree(w, q)
    ensures Pieces(w + " " + rest, current, q) == Pieces(" " + rest, current + w, After(q, w))
    decreases |w|
  {
    var s := w + " " + rest;
    if w == "" {
      assert s == " " + rest && current + w == current;
    } else {
      assert s[1..] == w[1..] + " " + rest;
      OperatorBeforeSpace(w, rest);
      assert current + [w[0]] + w[1..] == current + w;
      Collected(w[1..], rest, current + [w[0]], Step(q, w[0]));
    }
  }

  lemma SpaceCollected(rest: string, current: string, q: Quote)
    ensures Pieces(" " + rest, current, q) == Pieces(rest, current + " ", q)
  {
  }

  lemma OperatorRead(op: string, rest: string)
    requires IsOperator(op)
    ensures Operator(op + " " + rest) == Some(op)
    ensures (op + " " + rest)[|op|..] == " " + rest
  {
    var s := op + " " + rest;
    assert s[0] == op[0] && s[..|op|] == op;
    if |op| == 2 { assert s[..2] == op; } else { assert s[1] == ' '; }
  }

  lemma TrimOne(p: Piece, ps: seq<Piece>)
    ensures Trim([p] + ps) == (if Strip(p.text) == "" then [] else [Command(Strip(p.text), p.op)]) + Trim(ps)
  {
  }

  /** Parsing a printed list of plain commands returns the list. */
  lemma {:induction false} PrintParse(cs: seq<Command>, pad: string)
    requires Printable(cs) && Blank(pad)
    ensures Trim(Pieces(Print(cs), pad, Free)) == cs
    decreases |cs|
  {
    if cs == [] {
      StripBlank(pad);
      TrimOne(Piece(pad, None), []);
      assert [Piece(pad, None)] + [] == [Piece(pad, None)];
    } else {
      FirstParsed(cs, pad);
      PrintParse(cs[1..], " ");
    }
  }

  lemma FirstParsed(cs: seq<Command>, pad: string)
    requires Printable(cs) && Blank(pad) && cs != []
    ensures Printable(cs[1..])
    ensures Trim(Pieces(Print(cs), pad, Free)) == [cs[0]] + Trim(Pieces(Print(cs[1..]), " ", Free))
  {
    hide Strip, OperatorFree, Trim, Pieces;
    var c, more := cs[0], Print(cs[1..]);
    assert Plain(c.line);
    StripPadded(pad, c.line, " ");
    if c.op.None? {
      assert cs[1..] == [];
      LastParsed(c, pad);
      assert Print(cs) == c.line + " " + "" + "";
    } else {
      assert Print(cs) == c.line + " " + (c.op.value + " ") + more;
      OperatorParsed(c, pad, more);
    }
  }

  lemma LastParsed(c: Command, pad: string)
    requires Plain(c.line) && Strip(pad + c.line + " ") == c.line && c.op.None?
    ensures Trim(Pieces(c.line + " " + "" + "", pad, Free)) == [c]
    ensures Trim(Pieces("", " ", Free)) == []
  {
    hide Strip, OperatorFree;
    assert c.line + " " + "" + "" == c.line + " " + "";
    Collected(c.line, "", pad, Free);
    SpaceCollected("", pad + c.line, Free);
    LastTrimmed(pad + c.line + " ", c);
    LastBlank();
  }

  lemma OperatorParsed(c: Command, pad: string, more: string)
    requires Plain(c.line) && Strip(pad + c.line + " ") == c.line && c.op.Some? && IsOperator(c.op.value)
    ensures
      Trim(Pieces(c.line + " " + (c.op.value + " ") + more, pad, Free)) == [c] + Trim(Pieces(more, " ", Free))
  {
    hide Strip, OperatorFree, Trim, Operator;
    var op := c.op.value;
    var rest := op + " " + more;
    assert c.line + " " + (op + " ") + more == c.line + " " + rest;
    Collected(c.line, rest, pad, Free);
    SpaceCollected(rest, pad + c.line, Free);
    OperatorRead(op, more);
    assert rest != "" && !IsQuote(rest[0]);
    var piece := Piece(pad + c.line + " ", c.op);
    assert Pieces(rest, pad + c.line + " ", Free) == [piece] + Pieces(" " + more, "", Free);
    SpaceCollected(more, "", Free);
    assert "" + " " == " ";
    TrimOne(piece, Pieces(more, " ", Free));
    assert c == Command(c.line, c.op);
  }

  lemma LastTrimmed(text: string, c: Command)
    requires Strip(text) == c.line && c.line != "" && c.op.None?
    ensures Trim(Pieces("", text, Free)) == [c]
  {
    hide Strip;
    TrimOne(Piece(text, None), []);
    assert [Piece(text, None)] + [] == [Piece(text, None)];
    assert [c] + [] == [c];
  }

  lemma LastBlank()
    ensures Trim(Pieces("", " ", Free)) == []
  {
    StripBlank(" ");
    TrimOne(Piece(" ", None), []);
    assert [Piece(" ", None)] + [] == [Piece(" ", None)];
  }

  /** Printing and re-parsing a list of plain commands with their operators returns the
      same commands and operators. */
  lemma ParsePrintRoundTrip(cs: seq<Command>)
    requires Printable(cs)
    ensures ParseChain(Print(cs)) == cs
  {
    PrintParse(cs, "");
  }

  // ----- pipe segments -----

  function Segments(s: string, current: string, q: Quote): (parts: seq<string>)
    ensures parts != []
    decreases |s|
  {
    if s == "" then [current]
    else if !IsQuote(s[0]) && s[0] == '|' && q.Free? then [current] + Segments(s[1..], "", Free)
    else Segments(s[1..], current + [s[0]], Step(q, s[0]))
  }

  /** Segments are trimmed; only a blank last one is dropped. */
  function TrimSegments(parts: seq<string>): seq<string>
    requires parts != []
  {
    if |parts| == 1 then (if Strip(parts[0]) == "" then [] else [Strip(parts[0])])
    else [Strip(parts[0])] + TrimSegments(parts[1..])
  }

  function SplitPipes(s: string): seq<string> {
    TrimSegments(Segments(s, "", Free))
  }

  function JoinedSegments(parts: seq<string>): string
    requires parts != []
  {
    if |parts| == 1 then parts[0] else parts[0] + "|" + JoinedSegments(parts[1..])
  }

  /** No unquoted bar. */
  predicate BarFree(w: string, q: Quote)
    decreases |w|
  {
    w == "" || (!(w[0] == '|' && q.Free?) && BarFree(w[1..], Step(q, w[0])))
  }

  lemma {:induction false} BarFreeAppend(w: string, q: Quote, c: char)
    requires BarFree(w, q) && !(c == '|' && After(q, w).Free?)
    ensures BarFree(w + [c], q)
    decreases |w|
  {
    if w == "" {
      assert w + [c] == [c] && [c][1..] == "";
    } else {
      assert (w + [c])[1..] == w[1..] + [c];
      BarFreeAppend(w[1..], Step(q, w[0]), c);
    }
  }

  lemma {:induction false} SegmentsFaithful(s: string, current: string, q: Quote)
    requires After(Free, current) == q && BarFree(current, Free)
    ensures JoinedSegments(Segments(s, current, q)) == current + s
    ensures forall p :: p in Segments(s, current, q) ==> BarFree(p, Free)
    decreases |s|
  {
    if s == "" {
      assert current + s == current;
    } else if !IsQuote(s[0]) && s[0] == '|' && q.Free? {
      SegmentsFaithful(s[1..], "", Free);
      var rest := Segments(s[1..], "", Free);
      assert ([current] + rest)[1..] == rest;
      assert current + "|" + ("" + s[1..]) == current + s;
    } else {
      var c := s[0];
      AfterAppend(Free, current, [c]);
      assert [c][1..] == "" && After(q, [c]) == Step(q, c);
      BarFreeAppend(current, Free, c);
      SegmentsFaithful(s[1..], current + [c], Step(q, c));
      assert current + [c] + s[1..] == current + s;
    }
  }

  /** The pipe level is quote-faithful for every text. */
  lemma PipesFaithful(s: string)
    ensures JoinedSegments(Segments(s, "", Free)) == s
    ensures forall p :: p in Segments(s, "", Free) ==> BarFree(p, Free)
  {
    SegmentsFaithful(s, "", Free);
  }

  // ----- the loops -----

  method ParseChainLoop(line: string) returns (nodes: seq<Command>)
    ensures nodes == ParseChain(line)
  {
    hide Trim, Operator, Strip;
    nodes := [];
    var current, inQuote, quoteChar := "", false, "";
    ghost var q := Free;
    var i := 0;
    while i < |line|
      invariant 0 <= i <= |line| && (inQuote, quoteChar) == AsFlag(q)
      invariant ParseChain(line) == nodes + Trim(Pieces(line[i..], current, q))
      decreases |line| - i
    {
      var c := line[i];
      assert line[i..][0] == c && line[i..][1..] == line[i + 1..];
      if IsQuote(c) {
        AutomataAgree(q, c);
        var next := UpdateQuoteState(c, inQuote, quoteChar);
        inQuote, quoteChar := next.0, next.1;
        q := Step(q, c);
        current := current + [c];
        i := i + 1;
        continue;
      }
      if !inQuote {
        var op := Operator(line[i..]);
        if op.Some? {
          assert line[i..][|op.value|..] == line[i + |op.value|..];
          nodes := AddToken(nodes, Piece(current, op), Pieces(line[i + |op.value|..], "", Free));
          current := "";
          i := i + |op.value|;
          continue;
        }
      }
      current := current + [c];
      i := i + 1;
    }
    assert line[i..] == "";
    nodes := AddToken(nodes, Piece(current, None), []);
    assert [Piece(current, None)] + [] == [Piece(current, None)];
  }

  /** A token is kept when it is not blank. */
  method AddToken(nodes: seq<Command>, p: Piece, ghost rest: seq<Piece>) returns (r: seq<Command>)
    ensures r + Trim(rest) == nodes + Trim([p] + rest)
    ensures rest == [] ==> r == nodes + Trim([p])
  {
    var stripped := Strip(p.text);
    r := if stripped == "" then nodes else nodes + [Command(stripped, p.op)];
    TrimOne(p, rest);
    assert [p] + [] == [p];
  }

  method SplitIgnoreQuotes(s: string) returns (parts: seq<string>)
    ensures parts == SplitPipes(s)
  {
    hide Strip;
    parts := [];
    var current, inQuote := "", None;
    ghost var q := Free;
    for i := 0 to |s|
      invariant inQuote == AsOption(q)
      invariant SplitPipes(s) == parts + TrimSegments(Segments(s[i..], current, q))
    {
      var c := s[i];
      assert s[i..][0] == c && s[i..][1..] == s[i + 1..];
      if IsQuote(c) {
        AutomataAgree(q, c);
        inQuote := UpdateOpen(c, inQuote);
        q := Step(q, c);
        current := current + [c];
      } else if c == '|' && inQuote == None {
        ghost var rest := Segments(s[i + 1..], "", Free);
        assert ([current] + rest)[1..] == rest;
        assert parts + ([Strip(current)] + TrimSegments(rest)) == parts + [Strip(current)] + TrimSegments(rest);
        parts := parts + [Strip(current)];
        current := "";
      } else {
        current := current + [c];
      }
    }
    assert s[|s|..] == "";
    var last := Strip(current);
    if last != "" { parts := parts + [last]; }
  }
}
