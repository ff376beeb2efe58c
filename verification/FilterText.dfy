/**
 Filter expressions (lorawan-string.cpp): a list of filters printed as text such as
 "addr = '01020304' and name <> 'gate' ", and the tokenising state machine that reads it.
 How a value is written and read is a parameter here; module FilterValues supplies it.
 */
module FilterText {
  import opened Bytes
  import opened TextCodec
  import opened ValueText

  const DATA_SIZE := 16

  /** A filter: connective, property and operator as table indexes, and the bytes compared with. */
  datatype Filter = Filter(pre: nat, property: nat, op: nat, length: nat, data: seq<Byte>)

  /** The text of a filter's value, and what storing a text in a filter makes of it. */
  type Printer = Filter -> string
  type Reader = (Filter, string) -> Filter

  // ---------- tables ----------

  const PRE_AND := 1
  const PRE_OR := 2

  function Properties(): seq<string> {
    ["", "addr", "activation", "class", "deveui", "nwkskey", "appskey", "version",
     "appeui", "appkey", "nwkkey", "devnonce", "joinnonce", "name"]
  }

  function Operators(): seq<string> { ["", "=", "<>", ">", "<", ">=", "<="] }

  function Connectives(): seq<string> { ["", "and", "or"] }

  /** The entry, or the empty first one for an index out of range. */
  function NameOf(table: seq<string>, i: nat): string
    requires table != []
  {
    if i < |table| then table[i] else table[0]
  }

  /** Index of the first entry equal to the C string, or 0. */
  function Find(table: seq<string>, s: string): (i: nat)
    ensures i < |table| || i == 0
  {
    FindFrom(table, CStr(s), 0)
  }

  function FindFrom(table: seq<string>, s: string, k: nat): (i: nat)
    requires k <= |table|
    ensures k <= i < |table| || i == 0
    decreases |table| - k
  {
    if k == |table| then 0 else if table[k] == s then k else FindFrom(table, s, k + 1)
  }

  /** Entries of a table without repetition, NUL or space are found where they stand. */
  predicate IsTable(table: seq<string>) {
    && (forall i :: 0 < i < |table| ==> table[i] != [] && NoSpaces(table[i]) && '\0' !in table[i])
    && (forall i, j :: 0 <= i < j < |table| ==> table[i] != table[j])
  }

  lemma {:induction false} FoundFrom(table: seq<string>, i: nat, k: nat)
    requires IsTable(table) && k <= i < |table|
    ensures FindFrom(table, table[i], k) == i
    decreases i - k
  {
    if k < i { FoundFrom(table, i, k + 1); }
  }

  lemma Found(table: seq<string>, i: nat)
    requires IsTable(table) && 0 < i < |table|
    ensures Find(table, NameOf(table, i)) == i
  {
    CStrWhole(table[i]);
    FoundFrom(table, i, 0);
  }

  lemma OperatorsDiffer()
    ensures IsTable(Operators())
  {
    assert Operators()[2][1] != Operators()[6][1];
  }

  lemma ConnectivesDiffer()
    ensures IsTable(Connectives())
  {}

  // ---------- printing ----------

  /** Property, operator and quoted value. */
  function Condition(value: Printer, f: Filter): string {
    NameOf(Properties(), f.property) + (" " + (NameOf(Operators(), f.op) + (" '" + (value(f) + "'"))))
  }

  function FilterToText(value: Printer, f: Filter, isFirst: bool): string {
    if isFirst then Condition(value, f) else NameOf(Connectives(), f.pre) + (" " + Condition(value, f))
  }

  function FiltersToText(value: Printer, fs: seq<Filter>, isFirst: bool): string {
    if fs == [] then "" else FilterToText(value, fs[0], isFirst) + (" " + FiltersToText(value, fs[1..], false))
  }

  // ---------- tokens ----------

  /** Length of the word `s` starts with. */
  function WordLength(s: string): (k: nat)
    ensures k <= |s|
    ensures forall i :: 0 <= i < k ==> !IsSpace(s[i])
    ensures k < |s| ==> IsSpace(s[k])
  {
    if s == [] || IsSpace(s[0]) then 0 else 1 + WordLength(s[1..])
  }

  /** The words of a text. */
  function Tokens(s: string): seq<string>
    decreases |s|
  {
    var t := SkipSpaces(s);
    if t == [] then [] else [t[..WordLength(t)]] + Tokens(t[WordLength(t)..])
  }

  lemma SpaceFirst(s: string)
    ensures Tokens(" " + s) == Tokens(s)
  {
    assert (" " + s)[1..] == s;
    assert SkipSpaces(" " + s) == SkipSpaces(s);
  }

  lemma {:induction false} WordThen(w: string, rest: string)
    requires NoSpaces(w) && (rest == [] || IsSpace(rest[0]))
    ensures WordLength(w + rest) == |w|
  {
    if w == [] {
      assert w + rest == rest;
    } else {
      assert (w + rest)[1..] == w[1..] + rest;
      WordThen(w[1..], rest);
    }
  }

  lemma WordFirst(w: string, rest: string)
    requires w != [] && NoSpaces(w) && (rest == [] || IsSpace(rest[0]))
    ensures Tokens(w + rest) == [w] + Tokens(rest)
  {
    WordThen(w, rest);
    var s := w + rest;
    assert SkipSpaces(s) == s;
    assert s[..|w|] == w && s[|w|..] == rest;
  }

  // ---------- the state machine ----------

  datatype Phase = Property | Compare | Value | AndOr

  datatype State = State(phase: Phase, f: Filter, found: seq<Filter>)

  predicate IsQuote(c: char) { c == '"' || c == '\'' }

  /** A quote is removed at either end. */
  function StripQuotes(s: string): string {
    if s == [] then s
    else
      var t := if IsQuote(s[0]) then s[1..] else s;
      if t != [] && IsQuote(t[|t| - 1]) then t[..|t| - 1] else t
  }

  /** What one token does. `read` stores the value text in a filter whose property is set. */
  function Feed(read: Reader, st: State, token: string): State {
    match st.phase
    case Property =>
      var p := Find(Properties(), token);
      st.(f := st.f.(property := p), phase := if p == 0 then Property else Compare)
    case Compare =>
      st.(f := st.f.(op := Find(Operators(), token)), phase := Value)
    case Value =>
      var g := read(st.f, StripQuotes(token));
      State(AndOr, g.(property := 0), st.found + [g])
    case AndOr =>
      var p := Find(Connectives(), token);
      st.(f := st.f.(pre := p), phase := if p == 0 then AndOr else Property)
  }

  function FeedAll(read: Reader, st: State, tokens: seq<string>): State
    decreases |tokens|
  {
    if tokens == [] then st else FeedAll(read, Feed(read, st, tokens[0]), tokens[1..])
  }

  const INITIAL := State(Property, Filter(PRE_AND, 0, 0, 0, Zeros(DATA_SIZE)), [])

  function Parsed(read: Reader, s: string): seq<Filter> {
    FeedAll(read, INITIAL, Tokens(s)).found
  }

  lemma {:induction false} FeedAppend(read: Reader, st: State, a: seq<string>, b: seq<string>)
    ensures FeedAll(read, st, a + b) == FeedAll(read, FeedAll(read, st, a), b)
    decreases |a|
  {
    if a == [] {
      assert a + b == b;
    } else {
      assert (a + b)[1..] == a[1..] + b;
      FeedAppend(read, Feed(read, st, a[0]), a[1..], b);
    }
  }

  // ---------- round trip ----------

  /** A filter whose names are in the tables and whose value text is one word. */
  predicate Printable(value: Printer, f: Filter) {
    && 0 < f.property < |Properties()| && 0 < f.op < |Operators()| && 0 < f.pre < |Connectives()|
    && NoSpaces(value(f))
  }

  /** What is read for `f` when the parser holds `g`: its value, stored over what `g` has left behind. */
  function ReadOver(value: Printer, read: Reader, f: Filter, g: Filter): Filter {
    read(g.(pre := f.pre, property := f.property, op := f.op), value(f))
  }

  /** The filters read for `fs`, one after the other, starting from a parser that holds `g`. */
  function ReadBack(value: Printer, read: Reader, fs: seq<Filter>, g: Filter): seq<Filter>
    decreases |fs|
  {
    if fs == [] then []
    else
      var r := ReadOver(value, read, fs[0], g);
      [r] + ReadBack(value, read, fs[1..], r.(property := 0))
  }

  predicate IsWord(w: string) { w != [] && NoSpaces(w) }

  function Quoted(v: string): string { "'" + (v + "'") }

  function Words(value: Printer, f: Filter): seq<string> {
    [NameOf(Properties(), f.property), NameOf(Operators(), f.op), Quoted(value(f))]
  }

  lemma WordAndSpace(w: string, rest: string)
    requires IsWord(w)
    ensures Tokens(w + (" " + rest)) == [w] + Tokens(rest)
  {
    WordFirst(w, " " + rest);
    SpaceFirst(rest);
  }

  lemma ThreeWords(a: string, b: string, c: string, rest: string)
    requires IsWord(a) && IsWord(b) && IsWord(c) && (rest == [] || IsSpace(rest[0]))
    ensures Tokens(a + (" " + (b + (" " + (c + rest))))) == [a] + ([b] + ([c] + Tokens(rest)))
  {
    WordAndSpace(a, b + (" " + (c + rest)));
    WordAndSpace(b, c + rest);
    WordFirst(c, rest);
  }

  lemma Grouped(a: seq<string>, b: seq<string>, c: seq<string>)
    ensures a + (b + c) == a + b + c
  {}

  lemma ListOfThree(a: string, b: string, c: string, rest: seq<string>)
    ensures [a] + ([b] + ([c] + rest)) == [a, b, c] + rest
  {}

  lemma Regroup(a: string, b: string, rest: string)
    ensures (a + (" " + b)) + rest == a + (" " + (b + rest))
  {}

  lemma WordsAreWords(value: Printer, f: Filter)
    requires Printable(value, f) && IsTable(Properties())
    ensures IsWord(Words(value, f)[0]) && IsWord(Words(value, f)[1]) && IsWord(Words(value, f)[2])
  {
    OperatorsDiffer();
  }

  lemma Spelled(value: Printer, f: Filter, rest: string)
    ensures var w := Words(value, f);
            Condition(value, f) + rest == w[0] + (" " + (w[1] + (" " + (w[2] + rest))))
  {
    assert " '" == " " + "'";
  }

  lemma TokensOfFilter(value: Printer, f: Filter, rest: string)
    requires Printable(value, f) && IsTable(Properties())
    ensures Tokens(Condition(value, f) + (" " + rest)) == Words(value, f) + Tokens(rest)
  {
    var w := Words(value, f);
    WordsAreWords(value, f);
    Spelled(value, f, " " + rest);
    ThreeWords(w[0], w[1], w[2], " " + rest);
    ListOfThree(w[0], w[1], w[2], Tokens(rest));
    SpaceFirst(rest);
  }

  lemma WithConnective(value: Printer, f: Filter, rest: string)
    ensures FilterToText(value, f, false) + rest == NameOf(Connectives(), f.pre) + (" " + (Condition(value, f) + rest))
  {
    Regroup(NameOf(Connectives(), f.pre), Condition(value, f), rest);
  }

  lemma TokensOfNext(value: Printer, f: Filter, rest: string)
    requires Printable(value, f) && IsTable(Properties())
    ensures Tokens(FilterToText(value, f, false) + (" " + rest))
         == [NameOf(Connectives(), f.pre)] + Words(value, f) + Tokens(rest)
  {
    var w, line := NameOf(Connectives(), f.pre), Condition(value, f) + (" " + rest);
    ConnectivesDiffer();
    WithConnective(value, f, " " + rest);
    WordAndSpace(w, line);
    TokensOfFilter(value, f, rest);
    Grouped([w], Words(value, f), Tokens(rest));
  }

  lemma StripQuoted(v: string)
    ensures StripQuotes(Quoted(v)) == v
  {
    assert Quoted(v)[1..] == v + "'";
  }

  /** Double and single quotes, mixed even, come off alike; a value without them is left as it is. */
  lemma EitherQuote(v: string, open: char, close: char)
    requires (open == '"' || open == '\'') && (close == '"' || close == '\'')
    ensures StripQuotes([open] + v + [close]) == v
    ensures v != [] && v[0] != '"' && v[0] != '\'' && v[|v| - 1] != '"' && v[|v| - 1] != '\'' ==> StripQuotes(v) == v
  {
    var s := [open] + v + [close];
    assert s[1..] == v + [close];
  }

  lemma FeedThree(read: Reader, st: State, a: string, b: string, c: string, p: nat, o: nat)
    requires st.phase == Property && Find(Properties(), a) == p > 0 && Find(Operators(), b) == o
    ensures var g := read(st.f.(property := p, op := o), StripQuotes(c));
            FeedAll(read, st, [a, b, c]) == State(AndOr, g.(property := 0), st.found + [g])
  {
    var s1 := st.(f := st.f.(property := p), phase := Compare);
    var s2 := s1.(f := s1.f.(op := o), phase := Value);
    assert Feed(read, st, a) == s1;
    assert Feed(read, s1, b) == s2;
    assert [a, b, c][1..] == [b, c] && [b, c][1..] == [c] && [c][1..] == [];
    assert FeedAll(read, s2, [c]) == FeedAll(read, Feed(read, s2, c), []);
  }

  /** The state behind a filter `g` that was read. */
  function Behind(st: State, g: Filter): State {
    State(AndOr, g.(property := 0), st.found + [g])
  }

  /** The three words of a filter, fed where a property is expected, append what is read for it. */
  lemma FeedWords(value: Printer, read: Reader, f: Filter, st: State)
    requires st.phase == Property && f.pre == st.f.pre && Printable(value, f) && IsTable(Properties())
    ensures FeedAll(read, st, Words(value, f)) == Behind(st, ReadOver(value, read, f, st.f))
  {
    var p, o := f.property, f.op;
    Found(Properties(), p);
    OperatorsDiffer();
    Found(Operators(), o);
    StripQuoted(value(f));
    FeedThree(read, st, NameOf(Properties(), p), NameOf(Operators(), o), Quoted(value(f)), p, o);
    assert st.f.(property := p, op := o) == st.f.(pre := f.pre, property := p, op := o);
  }

  /** The same after a connective. */
  lemma FeedNext(value: Printer, read: Reader, f: Filter, st: State)
    requires st.phase == AndOr && Printable(value, f) && IsTable(Properties())
    ensures FeedAll(read, st, [NameOf(Connectives(), f.pre)] + Words(value, f))
         == Behind(st, ReadOver(value, read, f, st.f))
  {
    var w := NameOf(Connectives(), f.pre);
    ConnectivesDiffer();
    Found(Connectives(), f.pre);
    var s1 := st.(f := st.f.(pre := f.pre), phase := Property);
    assert Feed(read, st, w) == s1;
    assert ([w] + Words(value, f))[1..] == Words(value, f);
    FeedWords(value, read, f, s1);
    assert ReadOver(value, read, f, s1.f) == ReadOver(value, read, f, st.f);
  }

  predicate AllPrintable(value: Printer, fs: seq<Filter>) {
    forall i :: 0 <= i < |fs| ==> Printable(value, fs[i])
  }

  /** A filter behind its connective is read, and the rest of the text is left. */
  lemma FeedOne(value: Printer, read: Reader, fs: seq<Filter>, st: State)
    requires fs != [] && st.phase == AndOr && Printable(value, fs[0]) && IsTable(Properties())
    ensures FeedAll(read, st, Tokens(FiltersToText(value, fs, false)))
         == FeedAll(read, Behind(st, ReadOver(value, read, fs[0], st.f)), Tokens(FiltersToText(value, fs[1..], false)))
  {
    var f, text := fs[0], FiltersToText(value, fs[1..], false);
    TokensOfNext(value, f, text);
    FeedAppend(read, st, [NameOf(Connectives(), f.pre)] + Words(value, f), Tokens(text));
    FeedNext(value, read, f, st);
  }

  lemma ReadBackStep(value: Printer, read: Reader, fs: seq<Filter>, g: Filter, before: seq<Filter>)
    requires fs != []
    ensures var r := ReadOver(value, read, fs[0], g);
            before + ReadBack(value, read, fs, g) == (before + [r]) + ReadBack(value, read, fs[1..], r.(property := 0))
  {}

  /** Filters after the first: each is introduced by its connective. */
  lemma {:induction false} FeedRest(value: Printer, read: Reader, fs: seq<Filter>, st: State)
    requires st.phase == AndOr && AllPrintable(value, fs) && IsTable(Properties())
    ensures FeedAll(read, st, Tokens(FiltersToText(value, fs, false))).found
         == st.found + ReadBack(value, read, fs, st.f)
    decreases |fs|
  {
    if fs == [] {
      assert Tokens("") == [];
    } else {
      FeedOne(value, read, fs, st);
      FeedRest(value, read, fs[1..], Behind(st, ReadOver(value, read, fs[0], st.f)));
      ReadBackStep(value, read, fs, st.f, st.found);
    }
  }

  /** The first filter is read without a connective. */
  lemma FeedFirst(value: Printer, read: Reader, fs: seq<Filter>)
    requires fs != [] && Printable(value, fs[0]) && IsTable(Properties())
    requires value(fs[0].(pre := PRE_AND)) == value(fs[0])
    ensures FeedAll(read, INITIAL, Tokens(FiltersToText(value, fs, true)))
         == FeedAll(read, Behind(INITIAL, ReadOver(value, read, fs[0].(pre := PRE_AND), INITIAL.f)),
                    Tokens(FiltersToText(value, fs[1..], false)))
  {
    var f, text := fs[0].(pre := PRE_AND), FiltersToText(value, fs[1..], false);
    assert Words(value, f) == Words(value, fs[0]);
    TokensOfFilter(value, fs[0], text);
    FeedAppend(read, INITIAL, Words(value, f), Tokens(text));
    FeedWords(value, read, f, INITIAL);
  }

  /** The list as it is read back: the first connective becomes "and". */
  function AndFirst(fs: seq<Filter>): seq<Filter> {
    if fs == [] then [] else [fs[0].(pre := PRE_AND)] + fs[1..]
  }

  /** The text of a value does not depend on the connective. */
  ghost predicate IgnoresConnective(value: Printer) {
    forall f: Filter :: value(f.(pre := PRE_AND)) == value(f)
  }

  /**
   For any way of writing and reading values, parsing a printed list gives exactly what reading each
   value in turn gives, each over what the filters before it left in the parser.
   */
  lemma PrintThenParse(value: Printer, read: Reader, fs: seq<Filter>)
    requires IsTable(Properties()) && AllPrintable(value, fs) && IgnoresConnective(value)
    ensures Parsed(read, FiltersToText(value, fs, true)) == ReadBack(value, read, AndFirst(fs), INITIAL.f)
  {
    if fs == [] {
      assert Tokens("") == [];
    } else {
      assert value(fs[0].(pre := PRE_AND)) == value(fs[0]);
      FeedFirst(value, read, fs);
      FeedRest(value, read, fs[1..], Behind(INITIAL, ReadOver(value, read, fs[0].(pre := PRE_AND), INITIAL.f)));
      assert AndFirst(fs)[1..] == fs[1..];
      ReadBackStep(value, read, AndFirst(fs), INITIAL.f, []);
    }
  }

  /** Same property, operator, length, bytes compared with, and connective. */
  predicate Same(f: Filter, g: Filter) {
    && f.pre == g.pre && f.property == g.property && f.op == g.op && f.length == g.length
    && f.length <= |f.data| && g.length <= |g.data| && f.data[..f.length] == g.data[..g.length]
  }

  predicate SameList(a: seq<Filter>, b: seq<Filter>)
    decreases |a|
  {
    |a| == |b| && (a == [] || (Same(a[0], b[0]) && SameList(a[1..], b[1..])))
  }

  // ---------- the program ----------

  /** `string2NETWORK_IDENTITY_FILTERS`; it ends on every text. */
  method ParseFilters(read: Reader, expression: string) returns (retVal: seq<Filter>)
    ensures retVal == Parsed(read, expression)
  {
    var size := |expression|;
    var start := 0;
    var st := INITIAL;
    assert expression[0..] == expression;
    while start < size
      invariant 0 <= start <= size
      invariant FeedAll(read, st, Tokens(expression[start..])) == FeedAll(read, INITIAL, Tokens(expression))
      decreases size - start
    {
      ghost var before := start;
      start := SkipBlanks(expression, start);
      var finish := EndOfWord(expression, start);
      var token := expression[start..finish];
      TokenHere(expression, before, start, finish);
      if |token| == 0 { return st.found; }
      st := Feed(read, st, token);
      start := finish;
    }
    assert expression[start..] == [];
    return st.found;
  }

  /** The next word begins at `start`; without one, `start` is `from` and holds a space. */
  predicate StartsWord(s: string, from: nat, start: nat)
    requires from <= start < |s|
  {
    if SkipSpaces(s[from..]) == [] then start == from && IsSpace(s[start]) else s[start..] == SkipSpaces(s[from..])
  }

  /** The first character from `from` on that is not a space; `from` itself when there is none. */
  method SkipBlanks(s: string, from: nat) returns (start: nat)
    requires from < |s|
    ensures from <= start < |s|
    ensures StartsWord(s, from, start)
  {
    start := from;
    var p := from;
    while p < |s|
      invariant from <= p <= |s|
      invariant SkipSpaces(s[p..]) == SkipSpaces(s[from..])
      invariant p > from ==> IsSpace(s[from])
    {
      if !IsSpace(s[p]) { return p; }
      assert s[p..][1..] == s[p + 1..];
      p := p + 1;
    }
    assert s[p..] == [];
  }

  method EndOfWord(s: string, start: nat) returns (finish: nat)
    requires start <= |s|
    ensures finish == start + WordLength(s[start..])
  {
    finish := start;
    while finish < |s| && !IsSpace(s[finish])
      invariant start <= finish <= |s|
      invariant WordLength(s[start..]) == finish - start + WordLength(s[finish..])
    {
      assert s[finish..][1..] == s[finish + 1..];
      finish := finish + 1;
    }
  }

  lemma TokenHere(s: string, before: nat, start: nat, finish: nat)
    requires before <= start < |s| && finish == start + WordLength(s[start..])
    requires StartsWord(s, before, start)
    ensures if start == finish then Tokens(s[before..]) == []
            else Tokens(s[before..]) == [s[start..finish]] + Tokens(s[finish..])
  {
    if start < finish {
      FirstToken(s[before..], s[start..]);
      assert s[start..][..finish - start] == s[start..finish];
      assert s[start..][finish - start..] == s[finish..];
    }
  }

  lemma FirstToken(s: string, t: string)
    requires t == SkipSpaces(s) && t != []
    ensures Tokens(s) == [t[..WordLength(t)]] + Tokens(t[WordLength(t)..])
  {}
}
