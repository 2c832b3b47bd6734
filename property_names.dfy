/** The path grammar: `parsePropertyName` (a one-pass tokenizer over the
    characters of a path such as `a[0].b`) and its inverse
    `createPropertyName`. */
module PropertyNames {
  import opened Wrappers

  /** One path segment: an object property name or an array index. */
  datatype Key = Name(name: string) | Index(index: nat)

  predicate IsDelimiter(c: char) {
    c == '.' || c == '[' || c == ']'
  }

  predicate IsDigit(c: char) {
    '0' <= c <= '9'
  }

  predicate IsDigits(s: string) {
    forall i :: 0 <= i < |s| ==> IsDigit(s[i])
  }

  /** A name the serializer and the parser agree on: non-empty and free of
      delimiters. */
  predicate ValidName(n: string) {
    |n| > 0 && forall i :: 0 <= i < |n| ==> !IsDelimiter(n[i])
  }

  /** Every name token of `ks` is a valid name. */
  predicate ValidNames(ks: seq<Key>) {
    forall i :: 0 <= i < |ks| && ks[i].Name? ==> ValidName(ks[i].name)
  }

  /** A key path whose textual form parses back to it: valid names and no
      index directly after another index (the parser rejects `][`). */
  predicate Serializable(ks: seq<Key>) {
    && ValidNames(ks)
    && forall i :: 0 < i < |ks| && ks[i].Index? ==> ks[i - 1].Name?
  }

  // ---------------------------------------------------------------------------
  // Decimal numerals: the number-to-text conversion of `${arg}` and the
  // text-to-number conversion `+token` restricted to digit strings.
  // ---------------------------------------------------------------------------

  function DigitChar(d: nat): (c: char)
    requires d < 10
    ensures IsDigit(c) && c as int - '0' as int == d
  {
    ('0' as int + d) as char
  }

  /** The decimal text of a non-negative integer, without leading zeros. */
  function DecimalString(n: nat): string
    decreases n
  {
    if n < 10 then [DigitChar(n)] else DecimalString(n / 10) + [DigitChar(n % 10)]
  }

  /** The value of a digit string; the empty string has value 0. */
  function DigitsValue(s: string): nat
    requires IsDigits(s)
  {
    if s == [] then 0 else DigitsValue(s[..|s| - 1]) * 10 + (s[|s| - 1] as int - '0' as int)
  }

  lemma {:induction false} DecimalRoundTrip(n: nat)
    ensures |DecimalString(n)| > 0 && IsDigits(DecimalString(n))
    ensures DigitsValue(DecimalString(n)) == n
    decreases n
  {
    if n >= 10 {
      DecimalRoundTrip(n / 10);
      var s := DecimalString(n / 10);
      assert (s + [DigitChar(n % 10)])[..|s|] == s;
    }
  }

  /** The index denoted by the text collected between `[` and `]`: JavaScript's
      `+text` on a digit string (the empty text counts as 0); anything else is
      rejected. */
  function IndexValue(buf: string): (r: Option<nat>)
    ensures r.Some? <==> IsDigits(buf)
    ensures buf == [] ==> r == Some(0)
  {
    if IsDigits(buf) then Some(DigitsValue(buf)) else None
  }

  // ---------------------------------------------------------------------------
  // createPropertyName
  // ---------------------------------------------------------------------------

  /** The text one key contributes: `[n]` for an index, the bare name in first
      position and `.name` anywhere else. */
  function Segment(k: Key, first: bool): string
  {
    match k
    case Name(n) => if first then n else "." + n
    case Index(i) => "[" + DecimalString(i) + "]"
  }

  /** The textual path of a key sequence. */
  function PropertyName(ks: seq<Key>): string
  {
    if ks == [] then "" else PropertyName(ks[..|ks| - 1]) + Segment(ks[|ks| - 1], |ks| == 1)
  }

  function Join(parts: seq<string>): string
  {
    if parts == [] then "" else Join(parts[..|parts| - 1]) + parts[|parts| - 1]
  }

  lemma JoinAppend(parts: seq<string>, t: string)
    ensures Join(parts + [t]) == Join(parts) + t
  {
    assert (parts + [t])[..|parts|] == parts;
  }

  lemma PropertyNameSnoc(ks: seq<Key>, i: nat)
    requires i < |ks|
    ensures PropertyName(ks[..i + 1]) == PropertyName(ks[..i]) + Segment(ks[i], i == 0)
  {
    assert ks[..i + 1][..i] == ks[..i];
  }

  /** `createPropertyName`: pushes each key's text onto `tokens`, a `.` before
      every name that does not come first, and joins them. */
  method CreatePropertyName(args: seq<Key>) returns (s: string)
    ensures s == PropertyName(args)
  {
    var tokens: seq<string> := [];
    for i := 0 to |args|
      invariant Join(tokens) == PropertyName(args[..i])
      invariant (tokens == []) == (i == 0)
    {
      PropertyNameSnoc(args, i);
      match args[i]
      case Name(n) =>
        if |tokens| > 0 {
          JoinAppend(tokens, ".");
          tokens := tokens + ["."];
        }
        JoinAppend(tokens, n);
        tokens := tokens + [n];
      case Index(k) =>
        JoinAppend(tokens, "[" + DecimalString(k) + "]");
        tokens := tokens + ["[" + DecimalString(k) + "]"];
    }
    assert args[..|args|] == args;
    s := Join(tokens);
  }

  // ---------------------------------------------------------------------------
  // parsePropertyName
  // ---------------------------------------------------------------------------

  /** The delimiter most recently read (`prevDelim`); `NoDelim` after an
      ordinary character and at the start. */
  datatype Delim = NoDelim | Dot | Open | Close

  /** The reasons `parsePropertyName` throws. */
  datatype SyntaxError =
    | UnexpectedDot        // a `.` ends an empty segment that does not follow `]`
    | UnexpectedOpen       // a `[` after a delimiter
    | UnexpectedClose      // a `]` after a delimiter
    | InvalidIndex         // the text before `]` is not a number
    | ExpectedDot          // an ordinary character or directly after `]`

  /** The tokenizer's state: the tokens so far, the pending characters and
      the previous delimiter. */
  datatype Scan = Scan(tokens: seq<Key>, buf: string, prev: Delim)

  const Start := Scan([], [], NoDelim)

  /** The tokens with the pending characters, if any, pushed as a name. */
  function Flush(st: Scan): seq<Key>
  {
    if st.buf != [] then st.tokens + [Name(st.buf)] else st.tokens
  }

  /** One character of the tokenizer's `switch`. */
  function Step(st: Scan, c: char): Result<Scan, SyntaxError>
  {
    if c == '.' then
      if st.prev == Close then Ok(st.(prev := Dot))
      else if st.buf == [] then Err(UnexpectedDot)
      else Ok(Scan(st.tokens + [Name(st.buf)], [], Dot))
    else if c == '[' then
      if st.prev != NoDelim then Err(UnexpectedOpen)
      else Ok(Scan(Flush(st), [], Open))
    else if c == ']' then
      if st.prev != NoDelim then Err(UnexpectedClose)
      else match IndexValue(st.buf)
        case None => Err(InvalidIndex)
        case Some(n) => Ok(Scan(st.tokens + [Index(n)], [], Close))
    else
      if st.prev == Close then Err(ExpectedDot)
      else Ok(Scan(st.tokens, st.buf + [c], NoDelim))
  }

  /** The tokenizer run over `s` from state `st`, stopping at the first error. */
  function Run(st: Scan, s: string): Result<Scan, SyntaxError>
    decreases |s|
  {
    if s == [] then Ok(st)
    else match Step(st, s[0])
      case Err(e) => Err(e)
      case Ok(st') => Run(st', s[1..])
  }

  /** What `parsePropertyName(s)` returns or throws. */
  function Parse(s: string): Result<seq<Key>, SyntaxError>
  {
    match Run(Start, s)
    case Err(e) => Err(e)
    case Ok(st) => Ok(Flush(st))
  }

  /** `parsePropertyName`: one pass over the characters of `s`, mutating the
      token list, the pending-character buffer and `prevDelim`. */
  method ParsePropertyName(s: string) returns (r: Result<seq<Key>, SyntaxError>)
    ensures r == Parse(s)
  {
    var tokens: seq<Key> := [];
    var token: string := [];
    var prevDelim := NoDelim;
    for i := 0 to |s|
      invariant Run(Scan(tokens, token, prevDelim), s[i..]) == Run(Start, s)
    {
      ghost var st := Scan(tokens, token, prevDelim);
      assert s[i..][0] == s[i] && s[i..][1..] == s[i + 1..];
      var c := s[i];
      if c == '.' {
        if prevDelim != Close {
          if |token| == 0 {
            return Err(UnexpectedDot);
          }
          tokens := tokens + [Name(token)];
          token := [];
        }
        prevDelim := Dot;
      } else if c == '[' {
        if prevDelim != NoDelim {
          return Err(UnexpectedOpen);
        }
        if |token| > 0 {
          tokens := tokens + [Name(token)];
          token := [];
        }
        prevDelim := Open;
      } else if c == ']' {
        if prevDelim != NoDelim {
          return Err(UnexpectedClose);
        }
        var n := IndexValue(token);
        if n.None? {
          return Err(InvalidIndex);
        }
        tokens := tokens + [Index(n.value)];
        token := [];
        prevDelim := Close;
      } else {
        if prevDelim == Close {
          return Err(ExpectedDot);
        }
        token := token + [c];
        prevDelim := NoDelim;
      }
      assert Step(st, c) == Ok(Scan(tokens, token, prevDelim));
    }
    if |token| > 0 {
      tokens := tokens + [Name(token)];
    }
    r := Ok(tokens);
  }

  // ---------------------------------------------------------------------------
  // Properties of the tokenizer
  // ---------------------------------------------------------------------------

  /** Running over `s + t` is running over `s`, then over `t`. */
  lemma {:induction false} RunAppend(st: Scan, s: string, t: string)
    ensures Run(st, s + t) == match Run(st, s)
                              case Err(e) => Err(e)
                              case Ok(st') => Run(st', t)
    decreases |s|
  {
    if s == [] {
      assert s + t == t;
    } else {
      assert (s + t)[0] == s[0] && (s + t)[1..] == s[1..] + t;
      match Step(st, s[0])
      case Err(e) =>
      case Ok(st') => RunAppend(st', s[1..], t);
    }
  }

  /** The delimiter state after reading `s`. */
  function LastDelim(s: string): Delim
  {
    if s == [] then NoDelim
    else match s[|s| - 1]
      case '.' => Dot
      case '[' => Open
      case ']' => Close
      case _ => NoDelim
  }

  /** The longest delimiter-free suffix of `s`: the characters of the segment
      being read. */
  function Trailing(s: string): string
  {
    if s == [] || IsDelimiter(s[|s| - 1]) then [] else Trailing(s[..|s| - 1]) + [s[|s| - 1]]
  }

  /** The tokenizer's state after a prefix `s` is determined by the text:
      the buffer is the trailing segment, `prev` the last delimiter, and every
      name token pushed so far is a valid name. */
  lemma {:induction false} ScanState(s: string)
    requires Run(Start, s).Ok?
    ensures Run(Start, s).value.buf == Trailing(s)
    ensures Run(Start, s).value.prev == LastDelim(s)
    ensures ValidNames(Run(Start, s).value.tokens)
    decreases |s|
  {
    if s != [] {
      var n := |s| - 1;
      assert s == s[..n] + [s[n]];
      RunAppend(Start, s[..n], [s[n]]);
      ScanState(s[..n]);
      TrailingNoDelimiter(s[..n]);
      var st := Run(Start, s[..n]).value;
      assert Run(st, [s[n]]) == Step(st, s[n]);
    }
  }

  /** Trailing segments contain no delimiter. */
  lemma {:induction false} TrailingNoDelimiter(s: string)
    ensures forall i :: 0 <= i < |Trailing(s)| ==> !IsDelimiter(Trailing(s)[i])
  {
    if s != [] && !IsDelimiter(s[|s| - 1]) {
      TrailingNoDelimiter(s[..|s| - 1]);
    }
  }

  /** `parsePropertyName("")` is the empty key sequence. */
  lemma ParseEmpty()
    ensures Parse("") == Ok([])
  {
  }

  /** Every name token the tokenizer returns is non-empty and contains no
      `.`, `[` or `]`. */
  lemma ParseNamesValid(s: string)
    requires Parse(s).Ok?
    ensures ValidNames(Parse(s).value)
  {
    ScanState(s);
    TrailingNoDelimiter(s);
  }

  /** Whether character `c` may follow the prefix `pre`. */
  predicate Legal(pre: string, c: char)
  {
    if c == '.' then LastDelim(pre) == Close || Trailing(pre) != []
    else if c == '[' then LastDelim(pre) == NoDelim
    else if c == ']' then LastDelim(pre) == NoDelim && IsDigits(Trailing(pre))
    else LastDelim(pre) != Close
  }

  /** The tokenizer succeeds exactly when every character is legal after the
      text before it. */
  lemma {:induction false} ParseOkIff(s: string)
    ensures Parse(s).Ok? <==> forall i :: 0 <= i < |s| ==> Legal(s[..i], s[i])
    decreases |s|
  {
    if s != [] {
      var n := |s| - 1;
      assert s == s[..n] + [s[n]];
      RunAppend(Start, s[..n], [s[n]]);
      ParseOkIff(s[..n]);
      assert forall i :: 0 <= i < n ==> s[..n][..i] == s[..i] && s[..n][i] == s[i];
      if Run(Start, s[..n]).Ok? {
        StepLegal(s[..n], s[n]);
      }
    }
  }

  /** One more character is accepted exactly when it is legal after the text read so far. */
  lemma StepLegal(pre: string, c: char)
    requires Run(Start, pre).Ok?
    ensures Run(Run(Start, pre).value, [c]).Ok? <==> Legal(pre, c)
  {
    ScanState(pre);
    var st := Run(Start, pre).value;
    assert Run(st, [c]) == Step(st, c);
  }

  /** The inputs `parsePropertyName` rejects: an empty segment before `.`
      that does not follow `]` (`a..b`, `.a`), a `[` after a delimiter
      (`a.[1]`, `a[0][1]`), a `]` after a delimiter (`a[]`), a non-numeric
      index (`a[x]`), and an ordinary character directly after `]`
      (`a[0]b`). */
  lemma ParseRejects(s: string, i: int)
    requires 0 <= i < |s|
    requires || (s[i] == '.' && (i == 0 || s[i - 1] == '.' || s[i - 1] == '['))
             || (s[i] == '[' && i > 0 && IsDelimiter(s[i - 1]))
             || (s[i] == ']' && i > 0 && IsDelimiter(s[i - 1]))
             || (s[i] == ']' && !IsDigits(Trailing(s[..i])))
             || (i > 0 && s[i - 1] == ']' && s[i] != '.')
    ensures Parse(s).Err?
  {
    ParseOkIff(s);
    if i > 0 {
      assert s[..i][i - 1] == s[i - 1];
    }
    assert !Legal(s[..i], s[i]);
  }

  // ---------------------------------------------------------------------------
  // Round trip: parsePropertyName(createPropertyName(ks)) == ks
  // ---------------------------------------------------------------------------

  /** A delimiter-free word extends the pending buffer. */
  lemma {:induction false} RunWord(st: Scan, w: string)
    requires st.prev != Close
    requires forall i :: 0 <= i < |w| ==> !IsDelimiter(w[i])
    ensures Run(st, w) == Ok(if w == [] then st else Scan(st.tokens, st.buf + w, NoDelim))
    decreases |w|
  {
    if w != [] {
      var st' := Scan(st.tokens, st.buf + [w[0]], NoDelim);
      assert Step(st, w[0]) == Ok(st');
      RunWord(st', w[1..]);
      assert st.buf + [w[0]] + w[1..] == st.buf + w;
      if w[1..] == [] {
        assert st.buf + [w[0]] == st.buf + w;
      }
    }
  }

  /** The tokenizer's state after reading `PropertyName(ks)`. */
  function EndState(ks: seq<Key>): Scan
  {
    if ks == [] then Start
    else match ks[|ks| - 1]
      case Name(n) => Scan(ks[..|ks| - 1], n, NoDelim)
      case Index(_) => Scan(ks, [], Close)
  }

  /** Reading `.w` (or `w` in first position) after `pre`. */
  lemma RunNameSegment(pre: seq<Key>, w: string)
    requires ValidNames(pre) && ValidName(w)
    ensures Run(EndState(pre), Segment(Name(w), pre == [])) == Ok(EndState(pre + [Name(w)]))
  {
    var ks := pre + [Name(w)];
    assert ks[..|pre|] == pre;
    if pre == [] {
      RunWord(Start, w);
      assert Start.buf + w == w;
    } else {
      var n := |pre|;
      var st := EndState(pre);
      var st' := Scan(pre, [], Dot);
      assert pre[..n - 1] + [pre[n - 1]] == pre;
      assert Step(st, '.') == Ok(st');
      assert ("." + w)[0] == '.' && ("." + w)[1..] == w;
      RunWord(st', w);
    }
  }

  /** Reading `[j]` after `pre`, whose last key (if any) is a name. */
  lemma RunIndexSegment(pre: seq<Key>, j: nat)
    requires ValidNames(pre)
    requires pre == [] || pre[|pre| - 1].Name?
    ensures Run(EndState(pre), Segment(Index(j), pre == [])) == Ok(EndState(pre + [Index(j)]))
  {
    var st := EndState(pre);
    var d := DecimalString(j);
    DecimalRoundTrip(j);
    var open := Scan(pre, [], Open);
    if pre != [] {
      assert pre[..|pre| - 1] + [pre[|pre| - 1]] == pre;
      assert ValidName(pre[|pre| - 1].name);
    }
    assert Step(st, '[') == Ok(open);
    var seg := "[" + d + "]";
    assert seg == ['['] + (d + [']']);
    RunAppend(st, ['['], d + [']']);
    RunAppend(open, d, [']']);
    forall i | 0 <= i < |d| ensures !IsDelimiter(d[i]) {
      assert IsDigit(d[i]);
    }
    RunWord(open, d);
    var full := Scan(pre, d, NoDelim);
    assert open.buf + d == d;
    assert Step(full, ']') == Ok(Scan(pre + [Index(j)], [], Close));
    assert Run(full, [']']) == Step(full, ']');
    assert Run(st, ['[']) == Ok(open);
  }

  lemma {:induction false} RunPropertyName(ks: seq<Key>)
    requires Serializable(ks)
    ensures Run(Start, PropertyName(ks)) == Ok(EndState(ks))
    decreases |ks|
  {
    if ks != [] {
      var n := |ks| - 1;
      var pre := ks[..n];
      assert ks == pre + [ks[n]];
      assert Serializable(pre);
      RunPropertyName(pre);
      RunAppend(Start, PropertyName(pre), Segment(ks[n], n == 0));
      match ks[n]
      case Name(w) =>
        assert ValidName(w);
        RunNameSegment(pre, w);
      case Index(j) =>
        if n > 0 {
          assert pre[n - 1] == ks[n - 1];
        }
        RunIndexSegment(pre, j);
    }
  }

  /** Serializing a key path with valid names and no two adjacent indices,
      then parsing the text, gives back the same key path. */
  lemma ParseOfPropertyName(ks: seq<Key>)
    requires Serializable(ks)
    ensures Parse(PropertyName(ks)) == Ok(ks)
  {
    RunPropertyName(ks);
    if ks != [] {
      assert ks[..|ks| - 1] + [ks[|ks| - 1]] == ks;
    }
  }

  /** Distinct serializable key paths have distinct textual forms. */
  lemma PropertyNameInjective(ks: seq<Key>, ks': seq<Key>)
    requires Serializable(ks) && Serializable(ks')
    requires PropertyName(ks) == PropertyName(ks')
    ensures ks == ks'
  {
    ParseOfPropertyName(ks);
    ParseOfPropertyName(ks');
  }
  /** Without the restriction on adjacent indices, valid names alone keep the
      text injective: `[0][1]` and `[0].a` say which keys they came from, even
      though the first one does not parse. */
  lemma {:induction false} PropertyNameInjectiveValid(ks: seq<Key>, ks': seq<Key>)
    requires ValidNames(ks) && ValidNames(ks')
    requires PropertyName(ks) == PropertyName(ks')
    ensures ks == ks'
    decreases |ks|
  {
    if ks == [] || ks' == [] {
      if ks != [] {
        LastSegment(ks);
      } else if ks' != [] {
        LastSegment(ks');
      }
    } else {
      var pre, pre' := ks[..|ks| - 1], ks'[..|ks'| - 1];
      var k, k' := ks[|ks| - 1], ks'[|ks'| - 1];
      SplitLast(ks);
      SplitLast(ks');
      SegmentsEqual(PropertyName(pre), k, |ks| == 1, PropertyName(pre'), k', |ks'| == 1);
      PropertyNameInjectiveValid(pre, pre');
      assert ks == pre + [k] && ks' == pre' + [k'];
    }
  }

  /** A non-empty key path is its prefix's text followed by its last
      segment, which is the first exactly when the prefix's text is empty. */
  lemma SplitLast(ks: seq<Key>)
    requires ks != [] && ValidNames(ks)
    ensures var pre := ks[..|ks| - 1];
            && ValidNames(pre) && ValidNames([ks[|ks| - 1]])
            && PropertyName(ks) == PropertyName(pre) + Segment(ks[|ks| - 1], |ks| == 1)
            && (|ks| == 1 <==> PropertyName(pre) == [])
  {
    var pre := ks[..|ks| - 1];
    PrefixValid(ks);
    assert [ks[|ks| - 1]][0] == ks[|ks| - 1];
    if |ks| > 1 {
      LastSegment(pre);
    }
  }

  lemma PrefixValid(ks: seq<Key>)
    requires ks != [] && ValidNames(ks)
    ensures ValidNames(ks[..|ks| - 1])
  {
    assert forall i :: 0 <= i < |ks| - 1 ==> ks[..|ks| - 1][i] == ks[i];
  }

  /** The last segment of a text, and the text before it, are determined:
      `]` ends an index, `.` or the start of the text comes before a name. */
  lemma SegmentsEqual(P: string, k: Key, first: bool, P': string, k': Key, first': bool)
    requires ValidNames([k]) && ValidNames([k'])
    requires first <==> P == []
    requires first' <==> P' == []
    requires P + Segment(k, first) == P' + Segment(k', first')
    ensures k == k' && P == P'
  {
    SegmentEnd(k, first);
    SegmentEnd(k', first');
    var s := P + Segment(k, first);
    assert s[|s| - 1] == Segment(k, first)[|Segment(k, first)| - 1];
    assert s[|s| - 1] == Segment(k', first')[|Segment(k', first')| - 1];
    assert [k][0] == k && [k'][0] == k';
    if k.Index? {
      IndexSegmentsEqual(P, k.index, P', k'.index);
    } else {
      NameSegmentsEqual(P, k.name, first, P', k'.name, first');
    }
  }

  /** A segment is non-empty and ends in `]` exactly when it is an index. */
  lemma SegmentEnd(k: Key, first: bool)
    requires ValidNames([k])
    ensures var seg := Segment(k, first); seg != [] && (seg[|seg| - 1] == ']' <==> k.Index?)
  {
    assert [k][0] == k;
  }

  lemma IndexSegmentsEqual(P: string, j: nat, P': string, j': nat)
    requires P + (['['] + DecimalString(j) + [']']) == P' + (['['] + DecimalString(j') + [']'])
    ensures j == j' && P == P'
  {
    DecimalRoundTrip(j);
    DecimalRoundTrip(j');
    var t, t' := P + ['['] + DecimalString(j), P' + ['['] + DecimalString(j');
    assert t + [']'] == P + (['['] + DecimalString(j) + [']']);
    assert t' + [']'] == P' + (['['] + DecimalString(j') + [']']);
    DropLast(t, t', ']');
    SplitAtLast(P, DecimalString(j), P', DecimalString(j'), '[');
  }

  lemma DropLast(t: string, t': string, c: char)
    requires t + [c] == t' + [c]
    ensures t == t'
  {
    assert t == (t + [c])[..|t|];
    assert t' == (t' + [c])[..|t'|];
  }

  lemma NameSegmentsEqual(P: string, w: string, first: bool, P': string, w': string, first': bool)
    requires ValidName(w) && ValidName(w')
    requires first <==> P == []
    requires first' <==> P' == []
    requires P + Segment(Name(w), first) == P' + Segment(Name(w'), first')
    ensures w == w' && P == P'
  {
    if first && first' {
      assert w == P + Segment(Name(w), first);
      assert w' == P' + Segment(Name(w'), first');
    } else if !first && !first' {
      assert P + Segment(Name(w), first) == P + ['.'] + w;
      assert P' + Segment(Name(w'), first') == P' + ['.'] + w';
      SplitAtLast(P, w, P', w', '.');
    } else if first {
      NameFirstVsLater(w, P', w');
      assert false;
    } else {
      NameFirstVsLater(w', P, w);
      assert false;
    }
  }

  /** A first name has no `.`, a later one is preceded by `.`. */
  lemma NameFirstVsLater(w: string, P: string, x: string)
    requires ValidName(w)
    ensures Segment(Name(w), true) != P + Segment(Name(x), false)
  {
    var t := P + Segment(Name(x), false);
    assert t == P + ['.'] + x;
    assert t[|P|] == '.';
  }

  /** The text of a non-empty key path with valid names is non-empty and ends
      in `]` exactly when its last key is an index. */
  lemma LastSegment(ks: seq<Key>)
    requires ks != [] && ValidNames(ks)
    ensures PropertyName(ks) != []
    ensures var s := PropertyName(ks); ks[|ks| - 1].Index? <==> s[|s| - 1] == ']'
  {
    var k := ks[|ks| - 1];
    var seg := Segment(k, |ks| == 1);
    assert PropertyName(ks) == PropertyName(ks[..|ks| - 1]) + seg;
    if k.Name? {
      assert ValidName(k.name);
      assert seg[|seg| - 1] == k.name[|k.name| - 1];
    }
  }

  /** Two texts ending in a delimiter `c` followed by delimiter-free words
      agree on the word and on what precedes `c`. */
  lemma SplitAtLast(P: string, x: string, P': string, x': string, c: char)
    requires IsDelimiter(c)
    requires forall i :: 0 <= i < |x| ==> !IsDelimiter(x[i])
    requires forall i :: 0 <= i < |x'| ==> !IsDelimiter(x'[i])
    requires P + [c] + x == P' + [c] + x'
    ensures P == P' && x == x'
  {
    TrailingAfter(P, c, x);
    TrailingAfter(P', c, x');
    var s := P + [c] + x;
    assert P == s[..|P|] == P';
  }

  /** The delimiter-free word after the last delimiter is the trailing segment. */
  lemma {:induction false} TrailingAfter(P: string, c: char, x: string)
    requires IsDelimiter(c)
    requires forall i :: 0 <= i < |x| ==> !IsDelimiter(x[i])
    ensures Trailing(P + [c] + x) == x
    decreases |x|
  {
    var s := P + [c] + x;
    if x != [] {
      var x0 := x[..|x| - 1];
      assert s[..|s| - 1] == P + [c] + x0;
      TrailingAfter(P, c, x0);
      assert x == x0 + [x[|x| - 1]];
    }
  }

  /** The text of a prefix of a key path is a prefix of the path's text. */
  lemma {:induction false} PropertyNamePrefix(ks: seq<Key>, j: nat)
    requires j <= |ks|
    ensures PropertyName(ks[..j]) <= PropertyName(ks)
    decreases |ks|
  {
    if j < |ks| {
      PropertyNamePrefix(ks[..|ks| - 1], j);
      assert ks[..|ks| - 1][..j] == ks[..j];
    } else {
      assert ks[..j] == ks;
    }
  }

  /** Two indices in a row serialize as `][`, which the parser refuses:
      `createPropertyName(0, 1)` is `[0][1]`, and that does not parse. */
  lemma AdjacentIndicesRejected(ks: seq<Key>, i: nat)
    requires 0 < i < |ks| && ks[i - 1].Index? && ks[i].Index?
    ensures Parse(PropertyName(ks)).Err?
  {
    var s := PropertyName(ks);
    var pre := PropertyName(ks[..i]);
    PropertyNamePrefix(ks, i + 1);
    assert ks[..i + 1][..i] == ks[..i];
    assert ks[..i][..i - 1] == ks[..i - 1];
    var n := |pre|;
    assert pre[n - 1] == ']';
    assert PropertyName(ks[..i + 1]) == pre + Segment(ks[i], false);
    assert s[n - 1] == ']' && s[n] == '[';
    ParseRejects(s, n);
  }

  /** For key paths with valid names, the round trip through text succeeds
      exactly when no index directly follows an index. */
  lemma RoundTripIff(ks: seq<Key>)
    requires ValidNames(ks)
    ensures Parse(PropertyName(ks)) == Ok(ks) <==> Serializable(ks)
  {
    if Serializable(ks) {
      ParseOfPropertyName(ks);
    } else {
      var i :| 0 < i < |ks| && ks[i].Index? && !ks[i - 1].Name?;
      AdjacentIndicesRejected(ks, i);
    }
  }
}
