/** What the two argument parsers answer, for every string and without their scans: a string
    is a list of whole pairs and a tail, and the tail decides. */
module PtLanguage {
  import opened Words
  import opened Wrappers
  import opened PtArgs
  import opened SocksArgs
  import U = Utf8

  // ---- Spelling ----

  /** A text, byte by byte, and whether a backslash stands before the byte. */
  type spelling = seq<(byte, bool)>

  function Spell(x: spelling): bytes {
    if x == [] then [] else (if x[0].1 then [BACKSLASH, x[0].0] else [x[0].0]) + Spell(x[1..])
  }

  function Plain(x: spelling): bytes {
    if x == [] then [] else [x[0].0] + Plain(x[1..])
  }

  /** Backslashes and bytes that would end the text are escaped; under the strict rule only
      special bytes are. */
  predicate Marked(x: spelling, term: set<byte>, strict: bool) {
    forall i :: 0 <= i < |x| ==>
      && (x[i].0 == BACKSLASH || x[i].0 in term ==> x[i].1)
      && (strict && x[i].1 ==> Special(x[i].0))
  }

  predicate Ends(rest: bytes, term: set<byte>) {
    rest == [] || rest[0] in term
  }

  /** A backslash that nothing follows, or under the strict rule nothing special. */
  predicate Breaks(rest: bytes, strict: bool) {
    rest != [] && rest[0] == BACKSLASH && (|rest| == 1 || (strict && !Special(rest[1])))
  }

  lemma SpellFront(x: spelling, rest: bytes)
    ensures x == [] ==> Spell(x) + rest == rest && Plain(x) == []
    ensures x != [] ==>
              var front := if x[0].1 then [BACKSLASH, x[0].0] else [x[0].0];
              && Spell(x) + rest == front + (Spell(x[1..]) + rest) && |Spell(x)| == |front| + |Spell(x[1..])|
              && Plain(x) == [x[0].0] + Plain(x[1..])
  {
    if x != [] {
      var front := if x[0].1 then [BACKSLASH, x[0].0] else [x[0].0];
      assert front + Spell(x[1..]) + rest == front + (Spell(x[1..]) + rest);
    }
  }

  /** Any string is a spelling up to a terminator, a bad escape or its end. */
  lemma {:induction false} Spelled(s: bytes, term: set<byte>, strict: bool) returns (x: spelling, rest: bytes)
    requires BACKSLASH !in term
    ensures Marked(x, term, strict) && s == Spell(x) + rest && (Ends(rest, term) || Breaks(rest, strict))
    decreases |s|
  {
    hide Spell, Plain, Special;
    x, rest := [], s;
    SpellFront(x, rest);
    if !Ends(s, term) && !Breaks(s, strict) {
      var escaped := s[0] == BACKSLASH;
      var n := if escaped then 2 else 1;
      var y;
      y, rest := Spelled(s[n..], term, strict);
      x := [(s[n - 1], escaped)] + y;
      assert x[1..] == y;
      SpellFront(x, rest);
      assert s == (if escaped then [BACKSLASH, s[1]] else [s[0]]) + s[n..];
    }
  }

  // ---- A string as a list of pairs and a tail ----

  datatype Entry = Entry(key: spelling, value: spelling)

  predicate Proper(e: Entry, strict: bool) {
    && e.key != [] && Marked(e.key, KEY_END, strict) && U.Valid(Plain(e.key))
    && Marked(e.value, VALUE_END, strict) && U.Valid(Plain(e.value))
  }

  predicate AllProper(es: seq<Entry>, strict: bool) {
    forall i :: 0 <= i < |es| ==> Proper(es[i], strict)
  }

  function Text(e: Entry, more: bytes): bytes {
    Spell(e.key) + ([EQUALS] + (Spell(e.value) + more))
  }

  function Prefixed(es: seq<Entry>, tail: bytes): bytes {
    if es == [] then tail else Text(es[0], [SEMICOLON] + Prefixed(es[1..], tail))
  }

  function Pairs(es: seq<Entry>): seq<(bytes, bytes)> {
    if es == [] then [] else [(Plain(es[0].key), Plain(es[0].value))] + Pairs(es[1..])
  }

  /** What may stand after the last semicolon that ends a pair. */
  datatype Tail =
    | Whole(e: Entry)
    | Bare(key: spelling, more: bytes)
    | BadKey(key: spelling, more: bytes)
    | Nameless(value: spelling, more: bytes)
    | BadValue(e: Entry, more: bytes)
    | BrokenKey(key: spelling, more: bytes)
    | BrokenValue(e: Entry, more: bytes)

  function TailText(t: Tail): bytes {
    match t
    case Whole(e) => Text(e, [])
    case Bare(key, more) => Spell(key) + more
    case BadKey(key, more) => Spell(key) + more
    case Nameless(value, more) => Text(Entry([], value), more)
    case BadValue(e, more) => Text(e, more)
    case BrokenKey(key, more) => Spell(key) + more
    case BrokenValue(e, more) => Text(e, more)
  }

  // ---- goptlib's parser ----

  /** `Bare`: no equals sign before the semicolon or the end. `Nameless`: an empty key. `Bad`:
      not UTF-8. `Broken`: a last backslash. */
  predicate LenientTail(t: Tail) {
    match t
    case Whole(e) => Proper(e, false)
    case Bare(key, more) => Marked(key, KEY_END, false) && U.Valid(Plain(key)) && Ends(more, VALUE_END)
    case BadKey(key, more) => Marked(key, KEY_END, false) && !U.Valid(Plain(key)) && Ends(more, KEY_END)
    case Nameless(value, more) => Marked(value, VALUE_END, false) && U.Valid(Plain(value)) && Ends(more, VALUE_END)
    case BadValue(e, more) =>
      && Marked(e.key, KEY_END, false) && U.Valid(Plain(e.key))
      && Marked(e.value, VALUE_END, false) && !U.Valid(Plain(e.value)) && Ends(more, VALUE_END)
    case BrokenKey(key, more) => Marked(key, KEY_END, false) && more == [BACKSLASH]
    case BrokenValue(e, more) =>
      && Marked(e.key, KEY_END, false) && U.Valid(Plain(e.key))
      && Marked(e.value, VALUE_END, false) && more == [BACKSLASH]
  }

  function LenientAnswer(t: Tail, entries: table): Result<table, ParseError> {
    match t
    case Whole(e) => Ok(Added(entries, Plain(e.key), Plain(e.value)))
    case Bare(_, _) => Err(NoEquals)
    case Nameless(_, _) => Err(EmptyKey)
    case BrokenKey(_, _) => Err(DanglingEscape)
    case BrokenValue(_, _) => Err(DanglingEscape)
    case _ => Err(NotUtf8)
  }

  /** A scan goes over a spelling, whatever follows. */
  lemma {:induction false} ScanOver(x: spelling, rest: bytes, term: set<byte>)
    requires BACKSLASH !in term && Marked(x, term, false)
    ensures Scan(Spell(x) + rest, term, false) == After(|Spell(x)|, Plain(x), Scan(rest, term, false))
    decreases |x|
  {
    hide Scan, Spell, Plain;
    SpellFront(x, rest);
    if x == [] {
      assert Spell(x) == [] by {
        SpellFront(x, []);
        assert Spell(x) + [] == Spell(x);
      }
      AfterNothing(Scan(rest, term, false));
    } else {
      var n := if x[0].1 then 2 else 1;
      ScanOver(x[1..], rest, term);
      ScanMarked(x[0], Spell(x[1..]) + rest, term);
      AfterAfter(n, [x[0].0], |Spell(x[1..])|, Plain(x[1..]), Scan(rest, term, false));
    }
  }

  lemma ScanMarked(c: (byte, bool), more: bytes, term: set<byte>)
    requires BACKSLASH !in term && (c.0 == BACKSLASH || c.0 in term ==> c.1)
    ensures Scan((if c.1 then [BACKSLASH, c.0] else [c.0]) + more, term, false)
         == After(if c.1 then 2 else 1, [c.0], Scan(more, term, false))
  {
    if c.1 {
      assert ([BACKSLASH, c.0] + more)[2..] == more;
    } else {
      assert ([c.0] + more)[1..] == more;
    }
  }

  lemma IndexIs(x: spelling, rest: bytes, term: set<byte>)
    requires BACKSLASH !in term && Marked(x, term, false) && (Ends(rest, term) || rest == [BACKSLASH])
    ensures IndexUnescaped(Spell(x) + rest, term)
         == if rest == [BACKSLASH] then Err(DanglingEscape)
            else if !U.Valid(Plain(x)) then Err(NotUtf8) else Ok(Scanned(|Spell(x)|, Plain(x)))
  {
    hide Spell, Plain, U.Valid, Marked;
    ScanOver(x, rest, term);
    assert Plain(x) + [] == Plain(x);
  }

  /** The pair at the front, when its key is a spelling. */
  lemma FrontIs(e: Entry, more: bytes)
    requires Marked(e.key, KEY_END, false) && U.Valid(Plain(e.key))
    requires Marked(e.value, VALUE_END, false) && (Ends(more, VALUE_END) || more == [BACKSLASH])
    ensures FrontPair(Text(e, more))
         == if more == [BACKSLASH] then Err(DanglingEscape)
            else if !U.Valid(Plain(e.value)) then Err(NotUtf8)
            else if Plain(e.key) == [] then Err(EmptyKey)
            else Ok(Pair(Plain(e.key), Plain(e.value), if more == [] then None else Some(more[1..])))
  {
    hide Spell, Plain, U.Valid, Marked, IndexUnescaped;
    var t := Spell(e.value) + more;
    IndexIs(e.key, [EQUALS] + t, KEY_END);
    IndexIs(e.value, more, VALUE_END);
    var s := Text(e, more);
    assert s[|Spell(e.key)|] == EQUALS && s[|Spell(e.key)| + 1..] == t;
    if more != [] && more != [BACKSLASH] {
      assert t[|Spell(e.value)| + 1..] == more[1..];
    }
  }

  lemma KeyIs(key: spelling, more: bytes)
    requires Marked(key, KEY_END, false) && (Ends(more, KEY_END) || more == [BACKSLASH])
    requires !U.Valid(Plain(key)) || more == [] || more[0] != EQUALS
    ensures FrontPair(Spell(key) + more)
         == if more == [BACKSLASH] then Err(DanglingEscape) else if !U.Valid(Plain(key)) then Err(NotUtf8) else Err(NoEquals)
  {
    hide Spell, Plain, U.Valid, Marked, IndexUnescaped;
    IndexIs(key, more, KEY_END);
    assert more != [] ==> (Spell(key) + more)[|Spell(key)|] == more[0];
  }

  lemma PlainOfNothing()
    ensures Plain([]) == [] && Spell([]) == [] && U.Valid(Plain([])) && Marked([], KEY_END, false)
  {
  }

  lemma KeyIsText(e: Entry)
    requires e.key != []
    ensures Plain(e.key) != []
  {
  }

  lemma TailIs(t: Tail, entries: table)
    requires LenientTail(t)
    ensures PtArgs.Pairs(TailText(t), entries) == LenientAnswer(t, entries)
  {
    hide Spell, Plain, U.Valid, Marked, FrontPair, Added;
    PairsStep(TailText(t), entries);
    match t {
      case Whole(e) => {
        KeyIsText(e);
        FrontIs(e, []);
      }
      case Bare(key, more) => KeyIs(key, more);
      case BadKey(key, more) => KeyIs(key, more);
      case BrokenKey(key, more) => KeyIs(key, more);
      case Nameless(value, more) => {
        PlainOfNothing();
        FrontIs(Entry([], value), more);
      }
      case BadValue(e, more) => FrontIs(e, more);
      case BrokenValue(e, more) => FrontIs(e, more);
    }
  }

  lemma {:induction false} PairsOver(es: seq<Entry>, tail: bytes, entries: table)
    requires AllProper(es, false)
    ensures PtArgs.Pairs(Prefixed(es, tail), entries) == PtArgs.Pairs(tail, AddAll(entries, Pairs(es)))
    decreases |es|
  {
    hide U.Valid, Plain, FrontPair, Text, Added;
    if es != [] {
      var e, more := es[0], [SEMICOLON] + Prefixed(es[1..], tail);
      KeyIsText(e);
      FrontIs(e, more);
      assert more[1..] == Prefixed(es[1..], tail);
      PairsOver(es[1..], tail, Added(entries, Plain(e.key), Plain(e.value)));
    }
  }

  /** goptlib's parser: the pairs, if the last of them is whole too, or what is wrong with the
      tail. */
  lemma GoptlibIs(es: seq<Entry>, t: Tail)
    requires AllProper(es, false) && LenientTail(t) && Prefixed(es, TailText(t)) != []
    ensures Goptlib(Prefixed(es, TailText(t))) == LenientAnswer(t, AddAll(map[], Pairs(es)))
  {
    hide *;
    GoptlibStart(Prefixed(es, TailText(t)));
    assert Prefixed(es, TailText(t))[0..] == Prefixed(es, TailText(t));
    PairsOver(es, TailText(t), map[]);
    TailIs(t, AddAll(map[], Pairs(es)));
  }

  /** Every string is such a list of pairs and a tail. */
  lemma {:induction false} GoptlibCovers(s: bytes) returns (es: seq<Entry>, t: Tail)
    ensures AllProper(es, false) && LenientTail(t) && s == Prefixed(es, TailText(t))
    decreases |s|
  {
    hide Spell, Plain, U.Valid, Marked;
    es := [];
    var key, rest := Spelled(s, KEY_END, false);
    if Breaks(rest, false) {
      t := BrokenKey(key, rest);
    } else if !U.Valid(Plain(key)) {
      t := BadKey(key, rest);
    } else if rest == [] || rest[0] != EQUALS {
      t := Bare(key, rest);
    } else {
      var value, more := Spelled(rest[1..], VALUE_END, false);
      var e := Entry(key, value);
      assert rest == [EQUALS] + (Spell(value) + more);
      if Breaks(more, false) {
        t := BrokenValue(e, more);
      } else if !U.Valid(Plain(value)) {
        t := BadValue(e, more);
      } else if key == [] {
        t := Nameless(value, more);
      } else if more == [] {
        t := Whole(e);
      } else {
        TextLonger(e, more);
        es, t := GoptlibCovers(more[1..]);
        Prepend(e, es, more, TailText(t), false);
        es := [e] + es;
      }
    }
  }

  lemma TextLonger(e: Entry, more: bytes)
    ensures |more| < |Text(e, more)|
  {
  }

  lemma Prepend(e: Entry, es: seq<Entry>, more: bytes, tail: bytes, strict: bool)
    requires Proper(e, strict) && AllProper(es, strict)
    requires more != [] && more[0] == SEMICOLON && more[1..] == Prefixed(es, tail)
    ensures AllProper([e] + es, strict) && Text(e, more) == Prefixed([e] + es, tail)
  {
    hide Proper, Text;
    assert ([e] + es)[1..] == es && more == [SEMICOLON] + Prefixed(es, tail);
  }

  // ---- The SOCKS adapter's parser ----

  /** Here a key without an equals sign or nothing before one is wrong whatever follows, and a
      backslash before what needs none breaks a text too. */
  predicate StrictTail(t: Tail) {
    match t
    case Whole(e) => Proper(e, true)
    case Bare(key, more) => Marked(key, KEY_END, true) && Ends(more, VALUE_END)
    case BadKey(key, more) =>
      Marked(key, KEY_END, true) && !U.Valid(Plain(key)) && more != [] && more[0] == EQUALS
    case Nameless(value, _) => value == []
    case BadValue(e, more) =>
      && e.key != [] && Marked(e.key, KEY_END, true) && U.Valid(Plain(e.key))
      && Marked(e.value, VALUE_END, true) && !U.Valid(Plain(e.value)) && Ends(more, VALUE_END)
    case BrokenKey(key, more) => Marked(key, KEY_END, true) && Breaks(more, true)
    case BrokenValue(e, more) =>
      && e.key != [] && Marked(e.key, KEY_END, true) && U.Valid(Plain(e.key))
      && Marked(e.value, VALUE_END, true) && Breaks(more, true)
  }

  /** The answer for a tail that starts at `at`. A last semicolon, which leaves an empty tail or
      ends a value in it, is named itself. */
  function StrictAnswer(t: Tail, at: nat, entries: table): Result<table, ParseError> {
    match t
    case Whole(e) => Ok(Added(entries, Plain(e.key), Plain(e.value)))
    case Bare(key, more) =>
      if more != [] then Err(UnexpectedSemicolon(at + |Spell(key)|))
      else if key == [] then Err(UnexpectedSemicolon(at - 1))
      else Err(NoValue)
    case BadKey(_, _) => Err(NotUtf8)
    case Nameless(_, _) => Err(UnexpectedEquals(at))
    case BadValue(e, more) =>
      if |more| == 1 then Err(UnexpectedSemicolon(at + |Text(e, [])|)) else Err(NotUtf8)
    case BrokenKey(key, more) =>
      if |more| == 1 then Err(Unterminated) else Err(UnexpectedEscape(at + |Spell(key)|))
    case BrokenValue(e, more) =>
      if |more| == 1 then Err(Unterminated) else Err(UnexpectedEscape(at + |Text(e, [])|))
  }

  function From(key: Option<bytes>, acc: bytes, entries: table): State {
    State(key, acc, false, entries)
  }

  lemma RunStep(s: bytes, idx: nat, st: State)
    requires idx < |s|
    ensures var next := Step(st, s[idx], idx, |s|);
            Run(s, idx, st) == if next.Err? then Err(next.error) else Run(s, idx + 1, next.value)
  {
  }

  lemma RunEnds(s: bytes, st: State)
    ensures Run(s, |s|, st) == Finish(st)
  {
  }

  /** One byte of a text, with its backslash. */
  lemma RunMarked(s: bytes, idx: nat, c: (byte, bool), key: Option<bytes>, acc: bytes, entries: table)
    requires var term := if key.None? then KEY_END else VALUE_END;
             (c.0 == BACKSLASH || c.0 in term ==> c.1) && (c.1 ==> Special(c.0))
    requires idx + (if c.1 then 2 else 1) <= |s|
    requires if c.1 then s[idx] == BACKSLASH && s[idx + 1] == c.0 else s[idx] == c.0
    ensures Run(s, idx, From(key, acc, entries))
         == Run(s, idx + (if c.1 then 2 else 1), From(key, acc + [c.0], entries))
  {
    hide Run, U.Valid, Added;
    RunStep(s, idx, From(key, acc, entries));
    if c.1 {
      RunStep(s, idx + 1, State(key, acc, true, entries));
    }
  }

  /** The pass goes over a spelling, whatever follows. */
  lemma {:induction false} RunOver(s: bytes, idx: nat, x: spelling, rest: bytes, key: Option<bytes>, acc: bytes,
                                   entries: table)
    requires idx <= |s| && s[idx..] == Spell(x) + rest
    requires Marked(x, if key.None? then KEY_END else VALUE_END, true)
    ensures idx + |Spell(x)| <= |s| && s[idx + |Spell(x)|..] == rest
    ensures Run(s, idx, From(key, acc, entries)) == Run(s, idx + |Spell(x)|, From(key, acc + Plain(x), entries))
    decreases |x|
  {
    hide Run, Spell, Plain, Special, From;
    SpellFront(x, rest);
    SpellFront(x, []);
    assert Spell(x) + [] == Spell(x);
    if x == [] {
      assert acc + Plain(x) == acc;
    } else {
      var n := if x[0].1 then 2 else 1;
      var front := if x[0].1 then [BACKSLASH, x[0].0] else [x[0].0];
      RunSlice(s, idx, front, Spell(x[1..]) + rest);
      RunMarked(s, idx, x[0], key, acc, entries);
      RunOver(s, idx + n, x[1..], rest, key, acc + [x[0].0], entries);
      assert acc + ([x[0].0] + Plain(x[1..])) == acc + [x[0].0] + Plain(x[1..]);
    }
  }

  lemma RunSlice(s: bytes, idx: nat, front: bytes, rest: bytes)
    requires idx <= |s| && s[idx..] == front + rest
    ensures idx + |front| <= |s| && s[idx + |front|..] == rest
    ensures forall i :: 0 <= i < |front| ==> s[idx + i] == front[i]
  {
    assert forall i :: 0 <= i < |front| ==> s[idx..][i] == front[i];
    assert s[idx..][|front|..] == rest;
  }

  /** ... over a key and its equals sign. */
  lemma RunNames(s: bytes, idx: nat, key: spelling, rest: bytes, entries: table)
    requires idx <= |s| && s[idx..] == Spell(key) + ([EQUALS] + rest)
    requires key != [] && Marked(key, KEY_END, true)
    ensures var j := idx + |Spell(key)| + 1;
            && j <= |s| && s[j..] == rest
            && Run(s, idx, From(None, [], entries))
               == if U.Valid(Plain(key)) then Run(s, j, From(Some(Plain(key)), [], entries)) else Err(NotUtf8)
  {
    hide Run, Spell, U.Valid, Added, Marked;
    RunOver(s, idx, key, [EQUALS] + rest, None, [], entries);
    assert [] + Plain(key) == Plain(key);
    var j := idx + |Spell(key)|;
    RunSlice(s, j, [EQUALS], rest);
    RunStep(s, j, From(None, Plain(key), entries));
  }

  /** ... and over a value. */
  lemma RunValues(s: bytes, idx: nat, e: Entry, more: bytes, entries: table)
    requires idx <= |s| && s[idx..] == Text(e, more)
    requires e.key != [] && Marked(e.key, KEY_END, true) && U.Valid(Plain(e.key)) && Marked(e.value, VALUE_END, true)
    ensures var j := idx + |Text(e, [])|;
            && j <= |s| && s[j..] == more
            && Run(s, idx, From(None, [], entries)) == Run(s, j, From(Some(Plain(e.key)), Plain(e.value), entries))
  {
    hide Run, Spell, Plain, U.Valid, Marked, From;
    RunNames(s, idx, e.key, Spell(e.value) + more, entries);
    RunOver(s, idx + |Spell(e.key)| + 1, e.value, more, Some(Plain(e.key)), [], entries);
    assert [] + Plain(e.value) == Plain(e.value);
  }

  /** The end of a value. */
  lemma RunCloses(s: bytes, j: nat, key: bytes, acc: bytes, entries: table)
    requires j <= |s| && Ends(s[j..], VALUE_END)
    ensures Run(s, j, From(Some(key), acc, entries))
         == if j + 1 == |s| then Err(UnexpectedSemicolon(j))
            else if !U.Valid(acc) then Err(NotUtf8)
            else if j == |s| then Ok(Added(entries, key, acc))
            else Run(s, j + 1, From(None, [], Added(entries, key, acc)))
  {
    hide Run, U.Valid, Added;
    if j == |s| {
      RunEnds(s, From(Some(key), acc, entries));
    } else {
      assert s[j] == s[j..][0];
      RunStep(s, j, From(Some(key), acc, entries));
    }
  }

  /** A bad escape, in a key or in a value. */
  lemma RunBreaks(s: bytes, j: nat, key: Option<bytes>, acc: bytes, entries: table)
    requires j <= |s| && Breaks(s[j..], true)
    ensures Run(s, j, From(key, acc, entries))
         == if j + 1 == |s| then Err(Unterminated) else Err(UnexpectedEscape(j))
  {
    hide Run, U.Valid, Added;
    assert s[j] == s[j..][0];
    RunStep(s, j, From(key, acc, entries));
    if j + 1 == |s| {
      RunEnds(s, State(key, acc, true, entries));
    } else {
      assert s[j + 1] == s[j..][1];
      RunStep(s, j + 1, State(key, acc, true, entries));
    }
  }

  /** A key that nothing, a semicolon or an equals sign ends. */
  lemma RunStops(s: bytes, j: nat, acc: bytes, entries: table)
    requires j <= |s| && Ends(s[j..], KEY_END) && (j < |s| && s[j] == EQUALS ==> acc == [])
    ensures Run(s, j, From(None, acc, entries))
         == if j == |s| then Err(NoValue)
            else if s[j] == EQUALS then Err(UnexpectedEquals(j)) else Err(UnexpectedSemicolon(j))
  {
    hide Run, U.Valid, Added;
    if j == |s| {
      RunEnds(s, From(None, acc, entries));
    } else {
      assert s[j] == s[j..][0];
      RunStep(s, j, From(None, acc, entries));
    }
  }

  lemma KeyOver(s: bytes, at: nat, key: spelling, more: bytes, entries: table)
    requires at <= |s| && s[at..] == Spell(key) + more && Marked(key, KEY_END, true)
    ensures var j := at + |Spell(key)|;
            && j <= |s| && s[j..] == more && (more != [] ==> j < |s| && s[j] == more[0])
            && Run(s, at, From(None, [], entries)) == Run(s, j, From(None, Plain(key), entries))
  {
    hide Run, Spell, Plain, Marked, From;
    RunOver(s, at, key, more, None, [], entries);
    assert [] + Plain(key) == Plain(key);
    assert more != [] ==> s[at + |Spell(key)|..][0] == more[0];
  }

  lemma StrictEntryIs(s: bytes, at: nat, e: Entry, more: bytes, entries: table)
    requires at <= |s| && s[at..] == Text(e, more)
    requires e.key != [] && Marked(e.key, KEY_END, true) && U.Valid(Plain(e.key)) && Marked(e.value, VALUE_END, true)
    ensures var j := at + |Text(e, [])|; j + |more| == |s|
    ensures var j, r := at + |Text(e, [])|, Run(s, at, From(None, [], entries));
            && (Breaks(more, true) ==> r == if |more| == 1 then Err(Unterminated) else Err(UnexpectedEscape(j)))
            && (Ends(more, VALUE_END) ==>
                  r == if |more| == 1 then Err(UnexpectedSemicolon(j))
                       else if !U.Valid(Plain(e.value)) then Err(NotUtf8)
                       else if more == [] then Ok(Added(entries, Plain(e.key), Plain(e.value)))
                       else Run(s, j + 1, From(None, [], Added(entries, Plain(e.key), Plain(e.value)))))
  {
    hide Run, Text, Plain, U.Valid, Marked, Added, From, Special;
    RunValues(s, at, e, more, entries);
    var j := at + |Text(e, [])|;
    assert |s[j..]| == |more|;
    if Ends(more, VALUE_END) {
      RunCloses(s, j, Plain(e.key), Plain(e.value), entries);
    }
    if Breaks(more, true) {
      RunBreaks(s, j, Some(Plain(e.key)), Plain(e.value), entries);
    }
  }

  lemma BareIs(s: bytes, at: nat, key: spelling, more: bytes, entries: table)
    requires at <= |s| && s[at..] == Spell(key) + more && Marked(key, KEY_END, true) && Ends(more, VALUE_END)
    ensures Run(s, at, From(None, [], entries))
         == if more == [] then Err(NoValue) else Err(UnexpectedSemicolon(at + |Spell(key)|))
  {
    hide Run, Spell, Plain, Marked, From;
    KeyOver(s, at, key, more, entries);
    RunStops(s, at + |Spell(key)|, Plain(key), entries);
    assert |s[at + |Spell(key)|..]| == |more|;
  }

  lemma BadKeyIs(s: bytes, at: nat, key: spelling, more: bytes, entries: table)
    requires at <= |s| && s[at..] == Spell(key) + more && StrictTail(BadKey(key, more))
    ensures Run(s, at, From(None, [], entries)) == Err(NotUtf8)
  {
    hide Run, Spell, Plain, U.Valid, Marked, From;
    assert more == [EQUALS] + more[1..];
    PlainOfNothing();
    RunNames(s, at, key, more[1..], entries);
  }

  lemma NamelessIs(s: bytes, at: nat, value: spelling, more: bytes, entries: table)
    requires at <= |s| && s[at..] == TailText(Nameless(value, more))
    ensures Run(s, at, From(None, [], entries)) == Err(UnexpectedEquals(at))
  {
    hide Run, Spell, U.Valid, From;
    PlainOfNothing();
    assert TailText(Nameless(value, more)) == [EQUALS] + (Spell(value) + more);
    assert s[at] == s[at..][0];
    RunStops(s, at, [], entries);
  }

  lemma BrokenKeyIs(s: bytes, at: nat, key: spelling, more: bytes, entries: table)
    requires at <= |s| && s[at..] == Spell(key) + more && Marked(key, KEY_END, true) && Breaks(more, true)
    ensures Run(s, at, From(None, [], entries))
         == if |more| == 1 then Err(Unterminated) else Err(UnexpectedEscape(at + |Spell(key)|))
  {
    hide Run, Spell, Plain, Marked, From, Breaks;
    KeyOver(s, at, key, more, entries);
    RunBreaks(s, at + |Spell(key)|, None, Plain(key), entries);
    assert |s[at + |Spell(key)|..]| == |more|;
  }

  lemma StrictTailIs(s: bytes, at: nat, t: Tail, entries: table)
    requires at <= |s| && s[at..] == TailText(t) && StrictTail(t) && TailText(t) != []
    ensures Run(s, at, From(None, [], entries)) == StrictAnswer(t, at, entries)
  {
    hide Run, Spell, Plain, U.Valid, Marked, Added, From, Text;
    match t {
      case Whole(e) => StrictEntryIs(s, at, e, [], entries);
      case BadValue(e, more) => StrictEntryIs(s, at, e, more, entries);
      case BrokenValue(e, more) => StrictEntryIs(s, at, e, more, entries);
      case BadKey(key, more) => BadKeyIs(s, at, key, more, entries);
      case Nameless(value, more) => NamelessIs(s, at, value, more, entries);
      case Bare(key, more) => {
        BareIs(s, at, key, more, entries);
        NotEmpty(key, more);
      }
      case BrokenKey(key, more) => BrokenKeyIs(s, at, key, more, entries);
    }
  }

  lemma NotEmpty(key: spelling, more: bytes)
    requires Spell(key) + more != []
    ensures key != [] || more != []
  {
  }

  lemma {:induction false} StrictOver(s: bytes, at: nat, es: seq<Entry>, t: Tail, entries: table)
    requires at < |s| && s[at..] == Prefixed(es, TailText(t)) && AllProper(es, true) && StrictTail(t)
    ensures |TailText(t)| <= |s|
    ensures Run(s, at, From(None, [], entries))
         == StrictAnswer(t, |s| - |TailText(t)|, AddAll(entries, Pairs(es)))
    decreases |es|
  {
    hide Run, Plain, U.Valid, Marked, Added, From, Text, TailText, StrictTail, StrictAnswer;
    if es == [] {
      StrictTailIs(s, at, t, entries);
    } else {
      var e, more := es[0], [SEMICOLON] + Prefixed(es[1..], TailText(t));
      var j := at + |Text(e, [])|;
      StrictEntryIs(s, at, e, more, entries);
      TextSplit(s, at, e, more);
      if |more| > 1 {
        StrictOver(s, j + 1, es[1..], t, Added(entries, Plain(e.key), Plain(e.value)));
      } else {
        LastSemicolon(es[1..], t, |s|, AddAll(entries, Pairs(es)));
      }
    }
  }

  lemma TextSplit(s: bytes, at: nat, e: Entry, more: bytes)
    requires at <= |s| && s[at..] == Text(e, more) && more != []
    ensures var j := at + |Text(e, [])| + 1; j <= |s| && s[j..] == more[1..] && j - 1 + |more| == |s|
  {
    hide Spell;
    var front := Spell(e.key) + ([EQUALS] + Spell(e.value));
    assert Text(e, more) == front + [more[0]] + more[1..];
    RunSlice(s, at, front + [more[0]], more[1..]);
  }

  /** Nothing after the last semicolon. */
  lemma LastSemicolon(es: seq<Entry>, t: Tail, n: nat, entries: table)
    requires Prefixed(es, TailText(t)) == [] && StrictTail(t)
    ensures es == [] && TailText(t) == [] && StrictAnswer(t, n, entries) == Err(UnexpectedSemicolon(n - 1))
  {
  }

  /** The SOCKS adapter's parser: the pairs, if the last of them is whole too, or what is wrong
      with the tail and where. */
  lemma SocksIs(es: seq<Entry>, t: Tail)
    requires AllProper(es, true) && StrictTail(t) && Prefixed(es, TailText(t)) != []
    ensures var s := Prefixed(es, TailText(t));
            && |TailText(t)| <= |s|
            && Strict(s) == StrictAnswer(t, |s| - |TailText(t)|, AddAll(map[], Pairs(es)))
  {
    hide Run, AddAll, StrictTail, StrictAnswer, TailText, Prefixed;
    var s := Prefixed(es, TailText(t));
    assert s[0..] == s;
    StrictOver(s, 0, es, t, map[]);
  }

  /** Every string is such a list of pairs and a tail. */
  lemma {:induction false} SocksCovers(s: bytes) returns (es: seq<Entry>, t: Tail)
    ensures AllProper(es, true) && StrictTail(t) && s == Prefixed(es, TailText(t))
    decreases |s|
  {
    hide Spell, Plain, U.Valid, Marked;
    es := [];
    var key, rest := Spelled(s, KEY_END, true);
    if Breaks(rest, true) {
      t := BrokenKey(key, rest);
    } else if rest == [] || rest[0] != EQUALS {
      t := Bare(key, rest);
    } else if key == [] {
      t := Nameless([], rest[1..]);
      SpellFront([], rest[1..]);
      SpellFront([], rest);
      assert rest == [EQUALS] + rest[1..];
    } else if !U.Valid(Plain(key)) {
      t := BadKey(key, rest);
    } else {
      var value, more := Spelled(rest[1..], VALUE_END, true);
      var e := Entry(key, value);
      assert rest == [EQUALS] + (Spell(value) + more);
      if Breaks(more, true) {
        t := BrokenValue(e, more);
      } else if !U.Valid(Plain(value)) {
        t := BadValue(e, more);
      } else if more == [] {
        t := Whole(e);
      } else {
        TextLonger(e, more);
        es, t := SocksCovers(more[1..]);
        Prepend(e, es, more, TailText(t), true);
        es := [e] + es;
      }
    }
  }
}
