/** The ASCII FRAT printer and parser, down to characters. */
module Frat {
  import opened Wrappers
  import opened ProofTrace

  const I32_MIN: int := -0x8000_0000
  const I32_MAX: int := 0x7FFF_FFFF
  const I64_MIN: int := -0x8000_0000_0000_0000
  const I64_MAX: int := 0x7FFF_FFFF_FFFF_FFFF

  // ----- decimal integers

  function Digit(d: nat): char
    requires d < 10
  {
    ('0' as int + d) as char
  }

  predicate IsDigit(c: char) { '0' <= c <= '9' }

  function DecNat(n: nat): (s: string)
    ensures s != [] && forall i :: 0 <= i < |s| ==> IsDigit(s[i])
  {
    if n < 10 then [Digit(n)] else DecNat(n / 10) + [Digit(n % 10)]
  }

  function Dec(n: int): string { if n < 0 then "-" + DecNat(-n) else DecNat(n) }

  function ParseNat(s: string): Option<nat> {
    if s == [] || !IsDigit(s[|s| - 1]) then None
    else
      var d := s[|s| - 1] as int - '0' as int;
      if |s| == 1 then Some(d) else
      match ParseNat(s[..|s| - 1])
      case None => None
      case Some(n) => Some(10 * n + d)
  }

  /** `str::parse` into a signed type with the given range: an optional sign and digits. */
  function ParseInt(s: string, lo: int, hi: int): Option<int> {
    if s == [] then None else
    var n := ParseNat(if s[0] == '-' || s[0] == '+' then s[1..] else s);
    if n.None? then None else
    var v: int := if s[0] == '-' then 0 - n.value else n.value;
    if lo <= v <= hi then Some(v) else None
  }

  lemma {:induction false} ParseDecNat(n: nat)
    ensures ParseNat(DecNat(n)) == Some(n)
  {
    if n >= 10 {
      ParseDecNat(n / 10);
      var s := DecNat(n);
      assert s[..|s| - 1] == DecNat(n / 10);
    }
  }

  lemma ParseSigned(s: string, n: nat, lo: int, hi: int)
    requires s != [] && IsDigit(s[0]) && ParseNat(s) == Some(n)
    ensures lo <= n <= hi ==> ParseInt(s, lo, hi) == Some(n)
    ensures lo <= 0 - n <= hi ==> ParseInt("-" + s, lo, hi) == Some(0 - n)
  {
    assert ("-" + s)[0] == '-' && ("-" + s)[1..] == s;
  }

  lemma ParseDec(n: int, lo: int, hi: int)
    requires lo <= n <= hi
    ensures ParseInt(Dec(n), lo, hi) == Some(n)
  {
    var k := if n < 0 then -n else n;
    ParseDecNat(k);
    ParseSigned(DecNat(k), k, lo, hi);
  }

  /** `0` is the only number printed as the terminator, and no number is printed as the hint marker. */
  lemma DecZero(n: int)
    ensures Dec(n) == "0" <==> n == 0
    ensures Dec(n) != "l" && Word(Dec(n))
  {
    ParseDec(n, if n < 0 then n else 0, if n < 0 then 0 else n);
    if n < 0 { assert Dec(n)[0] == '-'; } else { assert IsDigit(Dec(n)[0]); }
    assert ParseNat("0") == Some(0);
  }

  // ----- lines and tokens

  /** Unicode White_Space. */
  predicate IsSpace(c: char) {
    var n := c as int;
    0x9 <= n <= 0xD || n == 0x20 || n == 0x85 || n == 0xA0 || n == 0x1680 || 0x2000 <= n <= 0x200A
    || n == 0x2028 || n == 0x2029 || n == 0x202F || n == 0x205F || n == 0x3000
  }

  predicate Word(s: string) { s != [] && forall i :: 0 <= i < |s| ==> !IsSpace(s[i]) }

  function WordLength(s: string): (k: nat)
    ensures k <= |s| && (forall i :: 0 <= i < k ==> !IsSpace(s[i])) && (k < |s| ==> IsSpace(s[k]))
  {
    if s == [] || IsSpace(s[0]) then 0 else 1 + WordLength(s[1..])
  }

  /** `split_whitespace`. */
  function Tokens(s: string): seq<string>
    decreases |s|
  {
    if s == [] then []
    else if IsSpace(s[0]) then Tokens(s[1..])
    else [s[..WordLength(s)]] + Tokens(s[WordLength(s)..])
  }

  function LineLength(s: string): (k: nat)
    ensures k <= |s| && (forall i :: 0 <= i < k ==> s[i] != '\n') && (k < |s| ==> s[k] == '\n')
  {
    if s == [] || s[0] == '\n' then 0 else 1 + LineLength(s[1..])
  }

  /** `lines`; a carriage return before the newline is white space and is dropped by `Tokens`. */
  function Lines(s: string): seq<string>
    decreases |s|
  {
    if s == [] then []
    else
      var k := LineLength(s);
      if k == |s| then [s] else [s[..k]] + Lines(s[k + 1..])
  }

  lemma {:induction false} WordLengthIs(w: string, rest: string)
    requires (forall i :: 0 <= i < |w| ==> !IsSpace(w[i])) && (rest == [] || IsSpace(rest[0]))
    ensures WordLength(w + rest) == |w|
  {
    if w == [] {
      assert w + rest == rest;
    } else {
      WordLengthIs(w[1..], rest);
      assert (w + rest)[1..] == w[1..] + rest;
    }
  }

  lemma TokensWord(w: string, rest: string)
    requires Word(w) && (rest == [] || IsSpace(rest[0]))
    ensures Tokens(w + rest) == [w] + Tokens(rest)
  {
    WordLengthIs(w, rest);
    assert (w + rest)[0] == w[0];
    assert (w + rest)[..|w|] == w && (w + rest)[|w|..] == rest;
  }

  lemma TokensSpace(rest: string)
    ensures Tokens(" " + rest) == Tokens(rest)
  {
    assert (" " + rest)[1..] == rest;
  }

  lemma TokensCons(w: string, rest: string)
    requires Word(w)
    ensures Tokens(w + " " + rest) == [w] + Tokens(rest)
  {
    assert w + " " + rest == w + (" " + rest);
    TokensWord(w, " " + rest);
    TokensSpace(rest);
  }

  lemma {:induction false} LineLengthIs(line: string, rest: string)
    requires (forall i :: 0 <= i < |line| ==> line[i] != '\n') && rest != [] && rest[0] == '\n'
    ensures LineLength(line + rest) == |line|
  {
    if line == [] {
      assert line + rest == rest;
    } else {
      LineLengthIs(line[1..], rest);
      assert (line + rest)[1..] == line[1..] + rest;
    }
  }

  lemma LinesCons(line: string, rest: string)
    requires forall i :: 0 <= i < |line| ==> line[i] != '\n'
    ensures Lines(line + "\n" + rest) == [line] + Lines(rest)
  {
    var s := line + "\n" + rest;
    assert s == line + ("\n" + rest);
    LineLengthIs(line, "\n" + rest);
    assert s[..|line|] == line && s[|line| + 1..] == rest;
  }

  // ----- printing

  /** Each number followed by a blank, then the tail. */
  function NumbersText(ns: seq<int>, tail: string): string {
    if ns == [] then tail else Dec(ns[0]) + " " + NumbersText(ns[1..], tail)
  }

  function HintsText(hints: seq<int>): string {
    if hints == [] then "" else "  l " + NumbersText(hints, "0")
  }

  function LineText(kind: char, id: int, clause: seq<int>, hints: seq<int>): string {
    [kind] + " " + Dec(id) + "  " + NumbersText(clause, "0" + HintsText(hints))
  }

  predicate Bookkeeping(e: Event) {
    e.BeginProof? || e.ReportStatus? || e.SolveQuery? || e.ConcludeUnsat?
  }

  predicate Recorded(e: Event) {
    e.OriginalClause? || (e.DerivedClause? && e.ratWitness == 0) || e.DeleteClause? || e.FinalizeClause?
  }

  function EventText(e: Event): string
    requires Recorded(e)
  {
    match e
    case OriginalClause(id, _, c, _) => LineText('o', id, c, [])
    case DerivedClause(id, _, _, c, ants) => LineText('a', id, c, ants)
    case DeleteClause(id, _, c) => LineText('d', id, c, [])
    case FinalizeClause(id, c) => LineText('f', id, c, [])
  }

  /** `encode_frat_ascii`: `None` is its error for RAT witnesses and unsupported events. */
  function Encode(events: seq<Event>): Option<string> {
    if events == [] then Some("") else
    var e := events[0];
    if !Recorded(e) && !Bookkeeping(e) then None else
    match Encode(events[1..])
    case None => None
    case Some(rest) => if Bookkeeping(e) then Some(rest) else Some(EventText(e) + "\n" + rest)
  }

  /** The records and the events that are skipped; everything else is an error. */
  predicate Printable(e: Event) {
    match e
    case OriginalClause(_, _, _, _) => true
    case DerivedClause(_, _, ratWitness, _, _) => ratWitness == 0
    case DeleteClause(_, _, _) => true
    case FinalizeClause(_, _) => true
    case BeginProof(_) => true
    case ReportStatus(_, _) => true
    case SolveQuery => true
    case ConcludeUnsat(_, _) => true
    case _ => false
  }

  /** Printing succeeds exactly on printable traces. */
  lemma {:induction false} EncodeExact(events: seq<Event>)
    ensures Encode(events).Some? <==> forall i :: 0 <= i < |events| ==> Printable(events[i])
  {
    if events != [] { EncodeExact(events[1..]); }
  }

  method WriteFratClause(output: string, kind: char, id: int, clause: seq<int>, hints: seq<int>) returns (r: string)
    ensures r == output + LineText(kind, id, clause, hints) + "\n"
  {
    ghost var tail := "0" + HintsText(hints);
    r := output + [kind] + " " + Dec(id) + "  ";
    r := WriteNumbers(r, clause, tail);
    ghost var literals := r;
    r := r + "0";
    if hints != [] {
      r := r + "  l ";
      r := WriteNumbers(r, hints, "0");
      r := r + "0";
      HintsAppend(literals, NumbersText(hints, "0"));
    }
    assert r == literals + tail;
    LineAppend(output, [kind], Dec(id), NumbersText(clause, tail));
    r := r + "\n";
  }

  lemma HintsAppend(literals: string, text: string)
    ensures literals + "0" + "  l " + text == literals + ("0" + ("  l " + text))
  {
  }

  lemma LineAppend(output: string, kind: string, id: string, text: string)
    ensures output + kind + " " + id + "  " + text == output + (kind + " " + id + "  " + text)
  {
  }

  /** The loop that pushes numbers; `tail` is what the caller writes after them. */
  method WriteNumbers(output: string, ns: seq<int>, ghost tail: string) returns (r: string)
    ensures r + tail == output + NumbersText(ns, tail)
  {
    r := output;
    assert ns[0..] == ns;
    for i := 0 to |ns|
      invariant r + NumbersText(ns[i..], tail) == output + NumbersText(ns, tail)
    {
      assert ns[i..][1..] == ns[i + 1..];
      assert r + NumbersText(ns[i..], tail) == (r + Dec(ns[i]) + " ") + NumbersText(ns[i + 1..], tail);
      r := r + Dec(ns[i]) + " ";
    }
    assert ns[|ns|..] == [];
  }

  function Prepend<T>(front: seq<T>, rest: Option<seq<T>>): Option<seq<T>> {
    if rest.None? then None else Some(front + rest.value)
  }

  lemma PrependStep(output: string, events: seq<Event>)
    requires events != []
    ensures var e := events[0];
      Prepend(output, Encode(events)) ==
        if Recorded(e) then Prepend(output + EventText(e) + "\n", Encode(events[1..]))
        else if Bookkeeping(e) then Prepend(output, Encode(events[1..])) else None
  {
    var e := events[0];
    if Recorded(e) && Encode(events[1..]).Some? {
      ConcatAssoc(output, EventText(e) + "\n", Encode(events[1..]).value);
      ConcatAssoc(output, EventText(e), "\n");
    }
  }

  lemma PrependEnds<T>(front: seq<T>, r: Option<seq<T>>)
    ensures Prepend([], r) == r && Prepend(front, Some([])) == Some(front)
  {
    if r.Some? { assert [] + r.value == r.value; }
    assert front + [] == front;
  }

  method EncodeFrat(events: seq<Event>) returns (r: Option<string>)
    ensures r == Encode(events)
    ensures r.Some? <==> forall i :: 0 <= i < |events| ==> Printable(events[i])
  {
    EncodeExact(events);
    var output := "";
    assert events[0..] == events;
    PrependEnds(output, Encode(events));
    for i := 0 to |events|
      invariant Encode(events) == Prepend(output, Encode(events[i..]))
    {
      assert events[i..][1..] == events[i + 1..];
      PrependStep(output, events[i..]);
      match events[i] {
        case OriginalClause(id, _, c, _) => output := WriteFratClause(output, 'o', id, c, []);
        case DerivedClause(id, _, w, c, ants) =>
          if w != 0 { return None; }
          output := WriteFratClause(output, 'a', id, c, ants);
        case DeleteClause(id, _, c) => output := WriteFratClause(output, 'd', id, c, []);
        case FinalizeClause(id, c) => output := WriteFratClause(output, 'f', id, c, []);
        case BeginProof(_) =>
        case ReportStatus(_, _) =>
        case SolveQuery =>
        case ConcludeUnsat(_, _) =>
        case _ => return None;
      }
    }
    assert events[|events|..] == [];
    PrependEnds(output, None);
    r := Some(output);
  }

  // ----- parsing

  datatype Numbers = Numbers(values: seq<int>, rest: seq<string>)

  /** Numbers up to the terminating token `0`. */
  function ParseNumbers(tokens: seq<string>, lo: int, hi: int): Option<Numbers> {
    if tokens == [] then None
    else if tokens[0] == "0" then Some(Numbers([], tokens[1..]))
    else match ParseInt(tokens[0], lo, hi)
      case None => None
      case Some(n) =>
        match ParseNumbers(tokens[1..], lo, hi)
        case None => None
        case Some(r) => Some(Numbers([n] + r.values, r.rest))
  }

  function ParseHints(tokens: seq<string>): Option<Numbers> {
    if tokens == [] then Some(Numbers([], []))
    else if tokens[0] != "l" then None
    else ParseNumbers(tokens[1..], I64_MIN, I64_MAX)
  }

  /** One record, given the tokens of a line that is neither blank nor a comment. */
  function ParseRecord(tokens: seq<string>): Option<Event>
    requires tokens != []
  {
    if |tokens| == 1 then None else
    var id := ParseInt(tokens[1], I64_MIN, I64_MAX);
    if id.None? then None else
    var c := ParseNumbers(tokens[2..], I32_MIN, I32_MAX);
    if c.None? then None else
    if tokens[0] == "a" then
      var h := ParseHints(c.value.rest);
      if h.None? || h.value.rest != [] then None
      else Some(DerivedClause(id.value, false, 0, c.value.values, h.value.values))
    else if c.value.rest != [] then None
    else if tokens[0] == "o" then Some(OriginalClause(id.value, false, c.value.values, false))
    else if tokens[0] == "d" then Some(DeleteClause(id.value, false, c.value.values))
    else if tokens[0] == "f" then Some(FinalizeClause(id.value, c.value.values))
    else None
  }

  function ParseLines(lines: seq<string>): Option<seq<Event>> {
    if lines == [] then Some([]) else
    var tokens := Tokens(lines[0]);
    var rest := ParseLines(lines[1..]);
    if tokens == [] || (tokens[0] != [] && tokens[0][0] == 'c') then rest
    else if ParseRecord(tokens).None? || rest.None? then None
    else Some([ParseRecord(tokens).value] + rest.value)
  }

  /** `parse_frat_ascii`. */
  function Parse(text: string): Option<seq<Event>> { ParseLines(Lines(text)) }

  lemma ParseStep(events: seq<Event>, line: string, rest: seq<string>)
    ensures var tokens := Tokens(line);
      Prepend(events, ParseLines([line] + rest)) ==
        if tokens == [] || (tokens[0] != [] && tokens[0][0] == 'c') then Prepend(events, ParseLines(rest))
        else if ParseRecord(tokens).None? then None
        else Prepend(events + [ParseRecord(tokens).value], ParseLines(rest))
  {
    assert ([line] + rest)[1..] == rest;
    if ParseLines(rest).Some? && Tokens(line) != [] && ParseRecord(Tokens(line)).Some? {
      var e := ParseRecord(Tokens(line)).value;
      assert events + ([e] + ParseLines(rest).value) == events + [e] + ParseLines(rest).value;
    }
  }

  /** The loop that reads numbers up to the terminating token. */
  method ReadNumbers(tokens: seq<string>, at: nat, lo: int, hi: int) returns (ok: bool, values: seq<int>, next: nat)
    requires at <= |tokens|
    ensures ok ==> next <= |tokens| && ParseNumbers(tokens[at..], lo, hi) == Some(Numbers(values, tokens[next..]))
    ensures !ok ==> ParseNumbers(tokens[at..], lo, hi).None?
  {
    values, next := [], at;
    if at < |tokens| { PrependNumbersStep([], tokens[at..], lo, hi); }
    while next < |tokens|
      invariant at <= next <= |tokens|
      invariant ParseNumbers(tokens[at..], lo, hi) == PrependNumbers(values, ParseNumbers(tokens[next..], lo, hi))
    {
      assert tokens[next..][1..] == tokens[next + 1..];
      PrependNumbersStep(values, tokens[next..], lo, hi);
      if tokens[next] == "0" { return true, values, next + 1; }
      var n := ParseInt(tokens[next], lo, hi);
      if n.None? { return false, values, next; }
      values, next := values + [n.value], next + 1;
    }
    assert tokens[next..] == [];
    ok := false;
  }

  function PrependNumbers(values: seq<int>, r: Option<Numbers>): Option<Numbers> {
    if r.None? then None else Some(Numbers(values + r.value.values, r.value.rest))
  }

  lemma PrependNumbersStep(values: seq<int>, tokens: seq<string>, lo: int, hi: int)
    requires tokens != []
    ensures PrependNumbers([], ParseNumbers(tokens, lo, hi)) == ParseNumbers(tokens, lo, hi)
    ensures var n := ParseInt(tokens[0], lo, hi);
      PrependNumbers(values, ParseNumbers(tokens, lo, hi)) ==
        if tokens[0] == "0" then Some(Numbers(values, tokens[1..]))
        else if n.None? then None
        else PrependNumbers(values + [n.value], ParseNumbers(tokens[1..], lo, hi))
  {
    var n, r := ParseInt(tokens[0], lo, hi), ParseNumbers(tokens[1..], lo, hi);
    assert values + [] == values;
    if ParseNumbers(tokens, lo, hi).Some? {
      assert [] + ParseNumbers(tokens, lo, hi).value.values == ParseNumbers(tokens, lo, hi).value.values;
    }
    if tokens[0] != "0" && n.Some? && r.Some? { ConcatAssoc(values, [n.value], r.value.values); }
  }

  /** The body of the line loop: id, literals, hints of a derived clause, nothing more. */
  method ReadRecord(tokens: seq<string>) returns (r: Option<Event>)
    requires tokens != []
    ensures r == ParseRecord(tokens)
  {
    if |tokens| == 1 { return None; }
    var id := ParseInt(tokens[1], I64_MIN, I64_MAX);
    if id.None? { return None; }
    var ok, clause, next := ReadNumbers(tokens, 2, I32_MIN, I32_MAX);
    if !ok { return None; }
    if tokens[0] == "o" {
      r := Some(OriginalClause(id.value, false, clause, false));
    } else if tokens[0] == "a" {
      var antecedents: seq<int> := [];
      ghost var rest := tokens[next..];
      if next < |tokens| {
        if tokens[next] != "l" { return None; }
        assert rest[1..] == tokens[next + 1..];
        ok, antecedents, next := ReadNumbers(tokens, next + 1, I64_MIN, I64_MAX);
        if !ok { return None; }
      }
      r := Some(DerivedClause(id.value, false, 0, clause, antecedents));
    } else if tokens[0] == "d" {
      r := Some(DeleteClause(id.value, false, clause));
    } else if tokens[0] == "f" {
      r := Some(FinalizeClause(id.value, clause));
    } else {
      return None;
    }
    if next < |tokens| { return None; }
  }

  method ParseFrat(text: string) returns (r: Option<seq<Event>>)
    ensures r == Parse(text)
    ensures forall events :: r == Some(events) <==> TextOf(RecordLines(Lines(text)), events)
  {
    forall events ensures Parse(text) == Some(events) <==> TextOf(RecordLines(Lines(text)), events) {
      ParseExact(text, events);
    }
    var lines := Lines(text);
    var events: seq<Event> := [];
    assert lines[0..] == lines;
    PrependEnds(events, Parse(text));
    for i := 0 to |lines|
      invariant Parse(text) == Prepend(events, ParseLines(lines[i..]))
    {
      assert lines[i..][1..] == lines[i + 1..];
      assert lines[i..] == [lines[i]] + lines[i + 1..];
      ParseStep(events, lines[i], lines[i + 1..]);
      var tokens := Tokens(lines[i]);
      if tokens != [] && (tokens[0] == [] || tokens[0][0] != 'c') {
        var e := ReadRecord(tokens);
        if e.None? { return None; }
        events := events + [e.value];
      }
    }
    assert lines[|lines|..] == [];
    PrependEnds(events, None);
    r := Some(events);
  }

  // ----- the texts that are accepted

  /** The tokens are the numbers `ns`, none of them written as the terminator, then `0` and `rest`. */
  predicate Spells(tokens: seq<string>, ns: seq<int>, rest: seq<string>, lo: int, hi: int) {
    && |tokens| == |ns| + 1 + |rest| && tokens[|ns|] == "0" && tokens[|ns| + 1..] == rest
    && forall i :: 0 <= i < |ns| ==> tokens[i] != "0" && ParseInt(tokens[i], lo, hi) == Some(ns[i])
  }

  /** The tokens of a line spell the event: kind, id, clause and, for a derived clause, an optional
      list of hints; nothing follows, and the flags the format does not keep are cleared. */
  ghost predicate RecordOf(tokens: seq<string>, e: Event) {
    && Recorded(e) && Kept(e) == [e]
    && |tokens| >= 2 && tokens[0] == [Kind(e)] && ParseInt(tokens[1], I64_MIN, I64_MAX) == Some(e.id)
    && exists rest :: Spells(tokens[2..], e.clause, rest, I32_MIN, I32_MAX) && HintsOf(rest, e)
  }

  predicate HintsOf(rest: seq<string>, e: Event) {
    || (rest == [] && Hints(e) == [])
    || (e.DerivedClause? && rest != [] && rest[0] == "l" && Spells(rest[1..], e.antecedents, [], I64_MIN, I64_MAX))
  }

  lemma {:induction false} NumbersExact(tokens: seq<string>, ns: seq<int>, rest: seq<string>, lo: int, hi: int)
    ensures ParseNumbers(tokens, lo, hi) == Some(Numbers(ns, rest)) <==> Spells(tokens, ns, rest, lo, hi)
    decreases tokens
  {
    if tokens != [] && tokens[0] != "0" && ParseInt(tokens[0], lo, hi).Some? {
      if ns == [] {
        assert ParseNumbers(tokens, lo, hi).Some? ==> ParseNumbers(tokens, lo, hi).value.values != [];
      } else {
        NumbersExact(tokens[1..], ns[1..], rest, lo, hi);
        SpellsCons(tokens, ns, rest, lo, hi);
        assert ns == [ns[0]] + ns[1..];
      }
    }
  }

  lemma SpellsCons(tokens: seq<string>, ns: seq<int>, rest: seq<string>, lo: int, hi: int)
    requires tokens != [] && ns != []
    ensures Spells(tokens, ns, rest, lo, hi) <==>
      tokens[0] != "0" && ParseInt(tokens[0], lo, hi) == Some(ns[0]) && Spells(tokens[1..], ns[1..], rest, lo, hi)
  {
    if |tokens| == |ns| + 1 + |rest| { assert tokens[1..][|ns|..] == tokens[|ns| + 1..]; }
    if Spells(tokens[1..], ns[1..], rest, lo, hi) && tokens[0] != "0" && ParseInt(tokens[0], lo, hi) == Some(ns[0]) {
      forall i | 0 <= i < |ns| ensures tokens[i] != "0" && ParseInt(tokens[i], lo, hi) == Some(ns[i]) {
        if i > 0 { assert tokens[i] == tokens[1..][i - 1] && ns[i] == ns[1..][i - 1]; }
      }
    }
  }

  /** A line is accepted as a record exactly when its tokens spell it; unknown kinds, missing
      terminators and trailing data are rejected. */
  lemma RecordExact(tokens: seq<string>, e: Event)
    requires tokens != []
    ensures ParseRecord(tokens) == Some(e) <==> RecordOf(tokens, e)
  {
    if ParseRecord(tokens) == Some(e) {
      var c := ParseNumbers(tokens[2..], I32_MIN, I32_MAX).value;
      NumbersExact(tokens[2..], c.values, c.rest, I32_MIN, I32_MAX);
      if e.DerivedClause? && c.rest != [] { NumbersExact(c.rest[1..], e.antecedents, [], I64_MIN, I64_MAX); }
      assert HintsOf(c.rest, e);
    }
    if RecordOf(tokens, e) {
      var rest :| Spells(tokens[2..], e.clause, rest, I32_MIN, I32_MAX) && HintsOf(rest, e);
      NumbersExact(tokens[2..], e.clause, rest, I32_MIN, I32_MAX);
      if rest != [] { NumbersExact(rest[1..], Hints(e), [], I64_MIN, I64_MAX); }
    }
  }

  /** The lines that are neither blank nor comments, as tokens. */
  function RecordLines(lines: seq<string>): seq<seq<string>> {
    if lines == [] then [] else
    var tokens := Tokens(lines[0]);
    (if tokens == [] || (tokens[0] != [] && tokens[0][0] == 'c') then [] else [tokens]) + RecordLines(lines[1..])
  }

  /** Line by line, the records spell the events. */
  ghost predicate TextOf(records: seq<seq<string>>, events: seq<Event>) {
    |records| == |events| && forall i :: 0 <= i < |events| ==> RecordOf(records[i], events[i])
  }

  lemma {:induction false} LinesExact(lines: seq<string>, events: seq<Event>)
    ensures ParseLines(lines) == Some(events) <==> TextOf(RecordLines(lines), events)
    decreases lines
  {
    if lines != [] {
      var tokens, records := Tokens(lines[0]), RecordLines(lines[1..]);
      if tokens == [] || (tokens[0] != [] && tokens[0][0] == 'c') {
        assert [] + records == records;
        LinesExact(lines[1..], events);
      } else if events != [] {
        RecordExact(tokens, events[0]);
        LinesExact(lines[1..], events[1..]);
        assert events == [events[0]] + events[1..];
        TextCons(tokens, records, events);
      }
    }
  }

  lemma TextCons(tokens: seq<string>, records: seq<seq<string>>, events: seq<Event>)
    requires events != []
    ensures TextOf([tokens] + records, events) <==> RecordOf(tokens, events[0]) && TextOf(records, events[1..])
  {
    var all := [tokens] + records;
    if TextOf(all, events) {
      forall i | 0 <= i < |events[1..]| ensures RecordOf(records[i], events[1..][i]) {
        assert RecordOf(all[i + 1], events[i + 1]);
      }
    }
    if RecordOf(tokens, events[0]) && TextOf(records, events[1..]) {
      forall i | 0 <= i < |events| ensures RecordOf(all[i], events[i]) {
        if i > 0 { assert RecordOf(records[i - 1], events[1..][i - 1]); }
      }
    }
  }

  /** A text parses to `events` exactly when its record lines spell them, in order. */
  lemma ParseExact(text: string, events: seq<Event>)
    ensures Parse(text) == Some(events) <==> TextOf(RecordLines(Lines(text)), events)
  {
    LinesExact(Lines(text), events);
  }

  // ----- round trip

  /** What the format keeps of an event. */
  function Kept(e: Event): seq<Event> {
    match e
    case OriginalClause(id, _, c, _) => [OriginalClause(id, false, c, false)]
    case DerivedClause(id, _, _, c, ants) => [DerivedClause(id, false, 0, c, ants)]
    case DeleteClause(id, _, c) => [DeleteClause(id, false, c)]
    case FinalizeClause(id, c) => [FinalizeClause(id, c)]
    case _ => []
  }

  function Canonical(events: seq<Event>): seq<Event> {
    if events == [] then [] else Kept(events[0]) + Canonical(events[1..])
  }

  /** Ids and hints are `i64`, literals `i32`. */
  predicate Ranged(e: Event) {
    && (e.OriginalClause? || e.DerivedClause? || e.DeleteClause? || e.FinalizeClause? ==>
      I64_MIN <= e.id <= I64_MAX && forall i :: 0 <= i < |e.clause| ==> I32_MIN <= e.clause[i] <= I32_MAX)
    && (e.DerivedClause? ==> forall i :: 0 <= i < |e.antecedents| ==> I64_MIN <= e.antecedents[i] <= I64_MAX)
  }

  predicate ZeroFree(e: Event) {
    && (e.OriginalClause? || e.DerivedClause? || e.DeleteClause? || e.FinalizeClause? ==> 0 !in e.clause)
    && (e.DerivedClause? ==> 0 !in e.antecedents)
  }

  function DecAll(ns: seq<int>): seq<string> { if ns == [] then [] else [Dec(ns[0])] + DecAll(ns[1..]) }

  lemma {:induction false} NumbersTokens(ns: seq<int>, tail: string)
    ensures Tokens(NumbersText(ns, tail)) == DecAll(ns) + Tokens(tail)
  {
    if ns == [] {
      assert DecAll(ns) + Tokens(tail) == Tokens(tail);
    } else {
      NumbersTokens(ns[1..], tail);
      DecZero(ns[0]);
      TokensCons(Dec(ns[0]), NumbersText(ns[1..], tail));
      ConcatAssoc([Dec(ns[0])], DecAll(ns[1..]), Tokens(tail));
    }
  }

  function HintTokens(hints: seq<int>): seq<string> {
    if hints == [] then [] else ["l"] + DecAll(hints) + ["0"]
  }

  lemma ZeroTokens(hints: seq<int>)
    ensures Tokens("0" + HintsText(hints)) == ["0"] + HintTokens(hints)
  {
    TokensWord("0", HintsText(hints));
    if hints != [] { MarkerTokens(hints); }
  }

  lemma MarkerTokens(hints: seq<int>)
    requires hints != []
    ensures Tokens(HintsText(hints)) == HintTokens(hints)
  {
    var t := NumbersText(hints, "0");
    NumbersTokens(hints, "0");
    TokensWord("0", "");
    assert "0" + "" == "0";
    IndentedTokens("l", t);
    assert HintsText(hints) == "  " + "l" + " " + t;
    ConcatAssoc(["l"], DecAll(hints), ["0"]);
  }

  lemma IndentedTokens(w: string, rest: string)
    requires Word(w)
    ensures Tokens("  " + w + " " + rest) == [w] + Tokens(rest)
  {
    var t := w + " " + rest;
    assert "  " + w + " " + rest == " " + (" " + t);
    TokensSpace(" " + t);
    TokensSpace(t);
    TokensCons(w, rest);
  }

  lemma HeadTokens(w: string, id: string, rest: string)
    requires Word(w) && Word(id)
    ensures Tokens(w + " " + id + "  " + rest) == [w, id] + Tokens(rest)
  {
    var t := id + " " + (" " + rest);
    HeadText(w, id, rest);
    TokensCons(w, t);
    TokensCons(id, " " + rest);
    TokensSpace(rest);
    ChainTokens(w, id, Tokens(w + " " + t), Tokens(t), Tokens(rest));
  }

  lemma ChainTokens(w: string, id: string, all: seq<string>, tail: seq<string>, rest: seq<string>)
    requires all == [w] + tail && tail == [id] + rest
    ensures all == [w, id] + rest
  {
  }

  lemma HeadText(w: string, id: string, rest: string)
    ensures w + " " + id + "  " + rest == w + " " + (id + " " + (" " + rest))
  {
  }

  lemma LineTokens(kind: char, id: int, clause: seq<int>, hints: seq<int>)
    requires !IsSpace(kind)
    ensures Tokens(LineText(kind, id, clause, hints)) ==
      [[kind], Dec(id)] + (DecAll(clause) + ["0"] + HintTokens(hints))
  {
    var tail := "0" + HintsText(hints);
    DecZero(id);
    HeadTokens([kind], Dec(id), NumbersText(clause, tail));
    NumbersTokens(clause, tail);
    ZeroTokens(hints);
    assert DecAll(clause) + (["0"] + HintTokens(hints)) == DecAll(clause) + ["0"] + HintTokens(hints);
  }

  /** Parsing stops at the first zero; what follows is left over. */
  lemma {:induction false} NumbersParse(ns: seq<int>, rest: seq<string>, lo: int, hi: int)
    requires forall i :: 0 <= i < |ns| ==> lo <= ns[i] <= hi
    ensures var r := ParseNumbers(DecAll(ns) + ["0"] + rest, lo, hi);
      && r.Some?
      && (0 !in ns ==> r.value == Numbers(ns, rest))
      && (0 in ns ==> r.value.rest != [] && r.value.rest[0] != "l")
  {
    var tokens := DecAll(ns) + ["0"] + rest;
    if ns == [] {
      assert tokens == ["0"] + rest && tokens[1..] == rest;
    } else {
      DecZero(ns[0]);
      ParseDec(ns[0], lo, hi);
      NumbersParse(ns[1..], rest, lo, hi);
      assert tokens[1..] == DecAll(ns[1..]) + ["0"] + rest;
      assert ns == [ns[0]] + ns[1..];
      if ns[0] == 0 {
        if |ns| > 1 { DecZero(ns[1]); assert tokens[1] == Dec(ns[1]); } else { assert tokens[1] == "0"; }
      }
    }
  }

  function Kind(e: Event): char {
    if e.OriginalClause? then 'o' else if e.DerivedClause? then 'a' else if e.DeleteClause? then 'd' else 'f'
  }

  function Hints(e: Event): seq<int> { if e.DerivedClause? then e.antecedents else [] }

  lemma HintsParse(hints: seq<int>)
    requires forall i :: 0 <= i < |hints| ==> I64_MIN <= hints[i] <= I64_MAX
    ensures var r := ParseHints(HintTokens(hints));
      r.Some? && (if 0 in hints then r.value.rest != [] else r.value == Numbers(hints, []))
  {
    if hints != [] {
      NumbersParse(hints, [], I64_MIN, I64_MAX);
      assert HintTokens(hints)[1..] == DecAll(hints) + ["0"] + [];
    }
  }

  /** What the record parser does with the tokens of a printed record. */
  lemma RecordParse(kind: string, id: int, clause: seq<int>, hints: seq<int>)
    requires I64_MIN <= id <= I64_MAX
    requires forall i :: 0 <= i < |clause| ==> I32_MIN <= clause[i] <= I32_MAX
    requires forall i :: 0 <= i < |hints| ==> I64_MIN <= hints[i] <= I64_MAX
    requires kind in {"o", "a", "d", "f"} && (kind != "a" ==> hints == [])
    ensures ParseRecord([kind, Dec(id)] + (DecAll(clause) + ["0"] + HintTokens(hints))) ==
      if 0 in clause || 0 in hints then None
      else if kind == "a" then Some(DerivedClause(id, false, 0, clause, hints))
      else if kind == "o" then Some(OriginalClause(id, false, clause, false))
      else if kind == "d" then Some(DeleteClause(id, false, clause))
      else Some(FinalizeClause(id, clause))
  {
    var body := DecAll(clause) + ["0"] + HintTokens(hints);
    var tokens := [kind, Dec(id)] + body;
    assert tokens[2..] == body && tokens[0] == kind && tokens[1] == Dec(id);
    ParseDec(id, I64_MIN, I64_MAX);
    NumbersParse(clause, HintTokens(hints), I32_MIN, I32_MAX);
    HintsParse(hints);
  }

  /** One record is recovered exactly when it contains no zero literal and no zero hint. */
  lemma RecordRoundTrip(e: Event)
    requires Recorded(e) && Ranged(e)
    ensures var tokens := Tokens(EventText(e));
      && tokens != [] && tokens[0] != [] && tokens[0][0] != 'c'
      && (ZeroFree(e) ==> ParseRecord(tokens).Some? && [ParseRecord(tokens).value] == Kept(e))
      && (!ZeroFree(e) ==> ParseRecord(tokens).None?)
  {
    EventTokens(e);
    RecordParse([Kind(e)], e.id, e.clause, Hints(e));
  }

  lemma EventTokens(e: Event)
    requires Recorded(e)
    ensures Tokens(EventText(e)) == [[Kind(e)], Dec(e.id)] + (DecAll(e.clause) + ["0"] + HintTokens(Hints(e)))
  {
    assert EventText(e) == LineText(Kind(e), e.id, e.clause, Hints(e));
    LineTokens(Kind(e), e.id, e.clause, Hints(e));
  }

  lemma {:induction false} NoNewline(ns: seq<int>, tail: string)
    requires forall i :: 0 <= i < |tail| ==> tail[i] != '\n'
    ensures forall i :: 0 <= i < |NumbersText(ns, tail)| ==> NumbersText(ns, tail)[i] != '\n'
  {
    if ns != [] {
      DecZero(ns[0]);
      NoNewline(ns[1..], tail);
    }
  }

  lemma LineNoNewline(kind: char, id: int, clause: seq<int>, hints: seq<int>)
    requires kind != '\n'
    ensures forall i :: 0 <= i < |LineText(kind, id, clause, hints)| ==> LineText(kind, id, clause, hints)[i] != '\n'
  {
    NoNewline(hints, "0");
    NoNewline(clause, "0" + HintsText(hints));
    DecZero(id);
  }

  /** No zero literal and no zero hint anywhere. */
  predicate ZeroFreeAll(events: seq<Event>) { forall i :: 0 <= i < |events| ==> ZeroFree(events[i]) }

  lemma ZeroFreeCons(events: seq<Event>)
    requires events != []
    ensures ZeroFreeAll(events) <==> ZeroFree(events[0]) && ZeroFreeAll(events[1..])
  {
    assert events == [events[0]] + events[1..];
  }

  /** A printed record in front of a text: one more event, or failure. */
  lemma ParseCons(e: Event, text: string)
    requires Recorded(e) && Ranged(e)
    ensures Parse(EventText(e) + "\n" + text) == if ZeroFree(e) then Prepend(Kept(e), Parse(text)) else None
  {
    LineNoNewline(Kind(e), e.id, e.clause, Hints(e));
    LinesCons(EventText(e), text);
    RecordRoundTrip(e);
    assert ([EventText(e)] + Lines(text))[1..] == Lines(text);
  }

  predicate Recovers(text: string, events: seq<Event>) {
    Parse(text) == if ZeroFreeAll(events) then Some(Canonical(events)) else None
  }

  lemma RecoversCons(events: seq<Event>)
    requires events != [] && Encode(events).Some? && Ranged(events[0])
    requires Encode(events[1..]).Some? && Recovers(Encode(events[1..]).value, events[1..])
    ensures Recovers(Encode(events).value, events)
  {
    var e, text := events[0], Encode(events[1..]).value;
    ZeroFreeCons(events);
    if Recorded(e) {
      ParseCons(e, text);
    } else {
      assert Kept(e) == [] && [] + Canonical(events[1..]) == Canonical(events[1..]);
    }
  }

  /** Printing then parsing recovers the trace, up to dropped bookkeeping events and cleared
      flags, if and only if no literal and no hint is zero; otherwise parsing fails. */
  lemma {:induction false} RoundTrip(events: seq<Event>)
    requires Encode(events).Some? && forall i :: 0 <= i < |events| ==> Ranged(events[i])
    ensures Parse(Encode(events).value) == if ZeroFreeAll(events) then Some(Canonical(events)) else None
  {
    if events == [] {
      assert Lines("") == [] && ParseLines([]) == Some([]);
    } else {
      RoundTrip(events[1..]);
      RecoversCons(events);
    }
  }

  // ----- the verdict survives

  /** The replay without deadline, on a list of events. */
  function Replay(events: seq<Event>, st: State): Verdict {
    if events == [] then (if st.finalizedEmpty then Accepted else Malformed(NoFinalEmptyClause))
    else match Step(st, events[0])
      case Rejected(reason) => Malformed(reason)
      case Next(st2) => Replay(events[1..], st2)
  }

  lemma {:induction false} RunIsReplay(events: seq<Event>, i: nat, st: State)
    requires i <= |events|
    ensures Run(events, i, st, NEVER) == Replay(events[i..], st)
    decreases |events| - i
  {
    if i < |events| {
      assert events[i..][1..] == events[i + 1..];
      if Step(st, events[i]).Next? { RunIsReplay(events, i + 1, Step(st, events[i]).state); }
    }
  }

  lemma {:induction false} ReplayCanonical(events: seq<Event>, st: State)
    requires Encode(events).Some?
    ensures Replay(Canonical(events), st) == Replay(events, st)
  {
    if events != [] {
      var e, rest := events[0], events[1..];
      if Recorded(e) {
        StepKept(st, e);
        var c := Kept(e)[0];
        assert Canonical(events) == [c] + Canonical(rest) && Canonical(events)[1..] == Canonical(rest);
        if Step(st, e).Next? { ReplayCanonical(rest, Step(st, e).state); }
      } else {
        assert Canonical(events) == Canonical(rest);
        ReplayCanonical(rest, st);
      }
    }
  }

  lemma StepKept(st: State, e: Event)
    requires Recorded(e)
    ensures |Kept(e)| == 1 && Step(st, Kept(e)[0]) == Step(st, e)
  {
  }

  /** The checker gives the parsed trace the verdict it gives the original. */
  lemma VerdictSurvives(events: seq<Event>)
    requires Encode(events).Some? && ZeroFreeAll(events) && forall i :: 0 <= i < |events| ==> Ranged(events[i])
    ensures var parsed := Parse(Encode(events).value);
      parsed.Some? && CheckTrace(parsed.value, NEVER) == CheckTrace(events, NEVER)
  {
    RoundTrip(events);
    var st := State(map[], false);
    RunIsReplay(events, 0, st);
    RunIsReplay(Canonical(events), 0, st);
    assert events[0..] == events && Canonical(events)[0..] == Canonical(events);
    ReplayCanonical(events, st);
  }
}
