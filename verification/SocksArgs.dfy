/** The SOCKS adapter's own single-pass argument parser, and how its language relates to
    goptlib's. */
module SocksArgs {
  import opened Words
  import opened Wrappers
  import opened PtArgs
  import U = Utf8

  // ---- The machine ----

  datatype State = State(key: Option<bytes>, acc: bytes, prevIsEscape: bool, entries: table)

  /** One byte of the pass, at `idx` of `len`. */
  function Step(st: State, ch: byte, idx: nat, len: nat): Result<State, ParseError> {
    if ch == BACKSLASH && !st.prevIsEscape then Ok(st.(prevIsEscape := true))
    else if ch == EQUALS && !st.prevIsEscape && st.key.None? then
      if st.acc == [] then Err(UnexpectedEquals(idx))
      else if !U.Valid(st.acc) then Err(NotUtf8)
      else Ok(st.(key := Some(st.acc), acc := []))
    else if ch == SEMICOLON && !st.prevIsEscape then
      if st.key.None? || idx == len - 1 then Err(UnexpectedSemicolon(idx))
      else if !U.Valid(st.acc) then Err(NotUtf8)
      else Ok(State(None, [], false, Added(st.entries, st.key.value, st.acc)))
    else if !Special(ch) && st.prevIsEscape then Err(UnexpectedEscape(idx - 1))
    else Ok(st.(prevIsEscape := false, acc := st.acc + [ch]))
  }

  function Finish(st: State): Result<table, ParseError> {
    if st.prevIsEscape then Err(Unterminated)
    else if st.key.None? then Err(NoValue)
    else if !U.Valid(st.acc) then Err(NotUtf8)
    else Ok(Added(st.entries, st.key.value, st.acc))
  }

  function Run(s: bytes, idx: nat, st: State): Result<table, ParseError>
    requires idx <= |s|
    decreases |s| - idx
  {
    if idx == |s| then Finish(st)
    else
      var next := Step(st, s[idx], idx, |s|);
      if next.Err? then Err(next.error) else Run(s, idx + 1, next.value)
  }

  const START: State := State(None, [], false, map[])

  function Strict(s: bytes): Result<table, ParseError> {
    if s == [] then Ok(map[]) else Run(s, 0, START)
  }

  // ---- The pass pair by pair ----

  /** `FrontPair` with strict scans, errors forgotten. */
  function StrictFront(s: bytes): (r: Option<Pair>)
    ensures r.Some? && r.value.rest.Some? ==> |r.value.rest.value| < |s|
  {
    var key := Scan(s, KEY_END, true);
    if key.None? || key.value.used >= |s| || s[key.value.used] != EQUALS then None
    else if key.value.text == [] || !U.Valid(key.value.text) then None
    else
      var t := s[key.value.used + 1..];
      var value := Scan(t, VALUE_END, true);
      if value.None? || !U.Valid(value.value.text) then None
      else Some(Pair(key.value.text, value.value.text,
                     if value.value.used >= |t| then None else Some(t[value.value.used + 1..])))
  }

  function StrictPairs(s: bytes, entries: table): Option<table>
    decreases |s|
  {
    var p := StrictFront(s);
    if p.None? then None
    else
      var entries' := Added(entries, p.value.key, p.value.value);
      if p.value.rest.None? then Some(entries') else StrictPairs(p.value.rest.value, entries')
  }

  function RunOk(s: bytes, idx: nat, st: State): Option<table>
    requires idx <= |s|
  {
    var r := Run(s, idx, st);
    if r.Ok? then Some(r.value) else None
  }

  /** The machine once a key ends before `j`. */
  function FromKey(s: bytes, j: nat, key: bytes, entries: table): Option<table>
    requires j <= |s|
  {
    if j == |s| || s[j] != EQUALS || key == [] || !U.Valid(key) then None
    else RunOk(s, j + 1, State(Some(key), [], false, entries))
  }

  lemma {:induction false} RunKey(s: bytes, idx: nat, acc: bytes, entries: table)
    requires idx <= |s|
    ensures var r := After(idx, acc, Scan(s[idx..], KEY_END, true));
            RunOk(s, idx, State(None, acc, false, entries))
            == if r.None? then None else FromKey(s, r.value.used, r.value.text, entries)
    decreases |s| - idx
  {
    hide U.Valid, Added;
    if idx < |s| && s[idx] !in KEY_END {
      StrictStep(s, idx, acc, KEY_END);
      hide Scan;
      if s[idx] != BACKSLASH {
        RunKey(s, idx + 1, acc + [s[idx]], entries);
      } else {
        var escaped := State(None, acc, true, entries);
        assert RunOk(s, idx, State(None, acc, false, entries)) == RunOk(s, idx + 1, escaped);
        if idx + 1 < |s| && Special(s[idx + 1]) {
          RunKey(s, idx + 2, acc + [s[idx + 1]], entries);
        }
      }
    } else {
      assert acc + [] == acc;
    }
  }

  lemma StrictStep(s: bytes, idx: nat, acc: bytes, term: set<byte>)
    requires idx < |s| && s[idx] !in term
    ensures s[idx] != BACKSLASH ==>
              After(idx, acc, Scan(s[idx..], term, true))
              == After(idx + 1, acc + [s[idx]], Scan(s[idx + 1..], term, true))
    ensures s[idx] == BACKSLASH && (idx + 1 == |s| || !Special(s[idx + 1])) ==> Scan(s[idx..], term, true) == None
    ensures s[idx] == BACKSLASH && idx + 1 < |s| && Special(s[idx + 1]) ==>
              After(idx, acc, Scan(s[idx..], term, true))
              == After(idx + 2, acc + [s[idx + 1]], Scan(s[idx + 2..], term, true))
  {
    var t := s[idx..];
    if s[idx] != BACKSLASH {
      assert t[1..] == s[idx + 1..];
      AfterAfter(idx, acc, 1, [s[idx]], Scan(s[idx + 1..], term, true));
    } else if idx + 1 < |s| {
      assert t[2..] == s[idx + 2..];
      AfterAfter(idx, acc, 2, [s[idx + 1]], Scan(s[idx + 2..], term, true));
    }
  }

  /** The machine once a value ends before `j`. */
  function FromValue(s: bytes, j: nat, key: bytes, value: bytes, entries: table): Option<table>
    requires j <= |s|
  {
    if !U.Valid(value) then None
    else if j == |s| then Some(Added(entries, key, value))
    else if j == |s| - 1 then None
    else RunOk(s, j + 1, State(None, [], false, Added(entries, key, value)))
  }

  lemma {:induction false} RunValue(s: bytes, idx: nat, key: bytes, acc: bytes, entries: table)
    requires idx <= |s|
    ensures var r := After(idx, acc, Scan(s[idx..], VALUE_END, true));
            RunOk(s, idx, State(Some(key), acc, false, entries))
            == if r.None? then None else FromValue(s, r.value.used, key, r.value.text, entries)
    decreases |s| - idx
  {
    hide U.Valid, Added;
    if idx < |s| && s[idx] !in VALUE_END {
      StrictStep(s, idx, acc, VALUE_END);
      hide Scan;
      if s[idx] != BACKSLASH {
        RunValue(s, idx + 1, key, acc + [s[idx]], entries);
      } else {
        var escaped := State(Some(key), acc, true, entries);
        assert RunOk(s, idx, State(Some(key), acc, false, entries)) == RunOk(s, idx + 1, escaped);
        if idx + 1 < |s| && Special(s[idx + 1]) {
          RunValue(s, idx + 2, key, acc + [s[idx + 1]], entries);
        }
      }
    } else {
      assert acc + [] == acc;
    }
  }

  /** The single pass is the pair-by-pair parse with strict scans. */
  lemma {:induction false} RunPairs(s: bytes, idx: nat, entries: table)
    requires idx < |s|
    ensures RunOk(s, idx, State(None, [], false, entries)) == StrictPairs(s[idx..], entries)
    decreases |s| - idx
  {
    hide *;
    RunFront(s, idx, entries);
    StrictPairsStep(s[idx..], entries);
    var p := StrictFront(s[idx..]);
    if p.Some? && p.value.rest.Some? {
      var m := |s| - |p.value.rest.value|;
      if m < |s| {
        RunPairs(s, m, Added(entries, p.value.key, p.value.value));
      } else {
        NoEmptyPair(Added(entries, p.value.key, p.value.value));
      }
    }
  }

  lemma StrictPairsStep(s: bytes, entries: table)
    ensures var p := StrictFront(s);
            StrictPairs(s, entries)
            == if p.None? then None
               else if p.value.rest.None? then Some(Added(entries, p.value.key, p.value.value))
               else StrictPairs(p.value.rest.value, Added(entries, p.value.key, p.value.value))
  {
  }

  lemma NoEmptyPair(entries: table)
    ensures StrictPairs([], entries) == None
  {
  }

  /** The single pass over the pair at the front of what is left. */
  lemma RunFront(s: bytes, idx: nat, entries: table)
    requires idx < |s|
    ensures var p, r := StrictFront(s[idx..]), RunOk(s, idx, State(None, [], false, entries));
            if p.None? then r == None
            else
              var entries' := Added(entries, p.value.key, p.value.value);
              if p.value.rest.None? then r == Some(entries')
              else
                var m := |s| - |p.value.rest.value|;
                && idx < m && p.value.rest.value == s[m..]
                && r == if m == |s| then None else RunOk(s, m, State(None, [], false, entries'))
  {
    hide RunOk, Scan, U.Valid, Added;
    var t := s[idx..];
    var key := Scan(t, KEY_END, true);
    RunKey(s, idx, [], entries);
    Shifted(idx, key);
    if key.Some? {
      var j := idx + key.value.used + 1;
      if j <= |s| && s[j - 1] == EQUALS {
        assert t[key.value.used + 1..] == s[j..];
        RunValue(s, j, key.value.text, [], entries);
        var value := Scan(s[j..], VALUE_END, true);
        Shifted(j, value);
        if value.Some? && j + value.value.used < |s| {
          assert s[j..][value.value.used + 1..] == s[j + value.value.used + 1..];
        }
      }
    }
  }

  lemma Shifted(n: nat, r: Option<Scanned>)
    ensures After(n, [], r) == if r.None? then None else Some(Scanned(n + r.value.used, r.value.text))
  {
    if r.Some? {
      assert [] + r.value.text == r.value.text;
    }
  }

  // ---- Strict scans are scans of well-escaped strings ----

  /** Every backslash that is not itself escaped escapes one of `\`, `=`, `;`. */
  predicate Escaped(s: bytes) {
    if s == [] then true
    else if s[0] == BACKSLASH then |s| > 1 && Special(s[1]) && Escaped(s[2..])
    else Escaped(s[1..])
  }

  lemma {:induction false} ScanStrict(s: bytes, term: set<byte>)
    requires BACKSLASH !in term
    ensures var r, q := Scan(s, term, false), Scan(s, term, true);
            (q.Some? ==> r == q) && (r.Some? ==> (Escaped(s) <==> q.Some? && Escaped(s[r.value.used..])))
  {
    if s == [] || s[0] in term {
      assert s[0..] == s;
    } else if s[0] == BACKSLASH {
      if |s| > 1 {
        ScanStrict(s[2..], term);
        var r := Scan(s[2..], term, false);
        assert r.Some? ==> s[2..][r.value.used..] == s[r.value.used + 2..];
      }
    } else {
      ScanStrict(s[1..], term);
      var r := Scan(s[1..], term, false);
      assert r.Some? ==> s[1..][r.value.used..] == s[r.value.used + 1..];
    }
  }

  lemma PieceStrict(s: bytes, term: set<byte>)
    requires BACKSLASH !in term
    ensures var r, q := Scan(s, term, false), Scan(s, term, true);
            (q.Some? ==> r == q)
            && (r.Some? ==> (Escaped(s) <==> q.Some? && (r.value.used < |s| ==> Escaped(s[r.value.used + 1..]))))
  {
    ScanStrict(s, term);
    hide Scan;
    var r := Scan(s, term, false);
    if r.Some? {
      if r.value.used < |s| {
        assert s[r.value.used..][1..] == s[r.value.used + 1..];
      } else {
        assert s[r.value.used..] == [];
      }
    }
  }

  lemma FrontStrict(s: bytes)
    ensures var f, q := FrontPair(s), StrictFront(s);
            (q.Some? ==> f == Ok(q.value))
            && (f.Ok? ==> (Escaped(s) <==> q.Some? && (q.value.rest.Some? ==> Escaped(q.value.rest.value))))
  {
    hide Scan, U.Valid, Escaped;
    PieceStrict(s, KEY_END);
    var r := Scan(s, KEY_END, false);
    if r.Some? && r.value.used < |s| {
      PieceStrict(s[r.value.used + 1..], VALUE_END);
    }
  }

  lemma {:induction false} PairsStrict(s: bytes, entries: table)
    ensures StrictPairs(s, entries)
         == if Pairs(s, entries).Ok? && Escaped(s) then Some(Pairs(s, entries).value) else None
    decreases |s|
  {
    FrontStrict(s);
    hide FrontPair, StrictFront, Escaped, Added;
    var f, q := FrontPair(s), StrictFront(s);
    if f.Ok? && f.value.rest.Some? {
      PairsStrict(f.value.rest.value, Added(entries, f.value.key, f.value.value));
    }
  }

  // ---- What it accepts is UTF-8 ----

  /** Strict escapes stand before ASCII only, so removing them changes nothing for UTF-8. */
  lemma {:induction false} ScanKeepsUtf8(a: bytes, s: bytes, term: set<byte>)
    requires Scan(s, term, true).Some?
    ensures var r := Scan(s, term, true).value; U.Valid(a + s[..r.used]) <==> U.Valid(a + r.text)
    decreases |s|
  {
    hide U.Valid, Special;
    var r := Scan(s, term, true).value;
    if s == [] || s[0] in term {
      assert s[..0] == [];
    } else if s[0] == BACKSLASH {
      ScanKeepsUtf8([], s[2..], term);
      EscapedKeepsUtf8(a, s, term);
    } else {
      var rest := Scan(s[1..], term, true).value;
      ScanKeepsUtf8(a + [s[0]], s[1..], term);
      assert a + s[..r.used] == a + [s[0]] + s[1..][..rest.used];
      assert a + r.text == a + [s[0]] + rest.text;
    }
  }

  lemma EscapedKeepsUtf8(a: bytes, s: bytes, term: set<byte>)
    requires Scan(s, term, true).Some? && s != [] && s[0] == BACKSLASH && BACKSLASH !in term
    requires var rest := Scan(s[2..], term, true).value;
             U.Valid([] + s[2..][..rest.used]) <==> U.Valid([] + rest.text)
    ensures var r := Scan(s, term, true).value; U.Valid(a + s[..r.used]) <==> U.Valid(a + r.text)
  {
    hide U.Valid;
    var r, rest := Scan(s, term, true).value, Scan(s[2..], term, true).value;
    assert Special(s[1]) && r.used == rest.used + 2 && r.text == [s[1]] + rest.text;
    hide Scan;
    var c, raw := s[1], s[2..][..rest.used];
    assert [] + raw == raw && [] + rest.text == rest.text;
    assert s[..r.used] == [BACKSLASH] + ([c] + raw);
    EscapeKeepsUtf8(a, c, raw, rest.text);
    Joined(a, [BACKSLASH], [c] + raw);
    Joined(a, [c], rest.text);
  }

  lemma Joined(a: bytes, b: bytes, c: bytes)
    ensures a + (b + c) == a + b + c
  {
  }

  lemma EscapeKeepsUtf8(a: bytes, c: byte, rest: bytes, text: bytes)
    requires c < 0x80 && (U.Valid(rest) <==> U.Valid(text))
    ensures U.Valid(a + [BACKSLASH] + ([c] + rest)) <==> U.Valid(a + [c] + text)
  {
    hide U.Valid;
    U.Cut(a, BACKSLASH, [c] + rest);
    U.Cut([], c, rest);
    assert [] + [c] + rest == [c] + rest;
    U.Cut(a, c, text);
    assert U.Valid([]) by {
      EmptyIsUtf8();
    }
  }

  lemma EmptyIsUtf8()
    ensures U.Valid([])
  {
  }

  lemma ScannedIsUtf8(s: bytes, term: set<byte>)
    requires Scan(s, term, true).Some? && U.Valid(Scan(s, term, true).value.text)
    ensures U.Valid(s[..Scan(s, term, true).value.used])
  {
    var r := Scan(s, term, true).value;
    ScanKeepsUtf8([], s, term);
    assert [] + s[..r.used] == s[..r.used] && [] + r.text == r.text;
  }

  lemma FrontIsUtf8(s: bytes)
    requires StrictFront(s).Some? && (StrictFront(s).value.rest.Some? ==> U.Valid(StrictFront(s).value.rest.value))
    ensures U.Valid(s)
  {
    hide Scan, U.Valid;
    var key := Scan(s, KEY_END, true).value;
    var t := s[key.used + 1..];
    var value := Scan(t, VALUE_END, true).value;
    ScannedIsUtf8(s, KEY_END);
    ScannedIsUtf8(t, VALUE_END);
    if value.used < |t| {
      U.Cut(t[..value.used], t[value.used], t[value.used + 1..]);
      assert t == t[..value.used] + [t[value.used]] + t[value.used + 1..];
    } else {
      assert t == t[..value.used];
    }
    U.Cut(s[..key.used], EQUALS, t);
    assert s == s[..key.used] + [EQUALS] + t;
  }

  lemma {:induction false} AcceptedIsUtf8(s: bytes, entries: table)
    requires StrictPairs(s, entries).Some?
    ensures U.Valid(s)
    decreases |s|
  {
    hide StrictFront, U.Valid, Added;
    var p := StrictFront(s).value;
    if p.rest.Some? {
      AcceptedIsUtf8(p.rest.value, Added(entries, p.key, p.value));
    }
    FrontIsUtf8(s);
  }

  /** The strict parser accepts exactly the UTF-8 strings that goptlib's accepts and in which
      every backslash escapes a special byte, and then both give the same arguments. */
  lemma SameLanguage(s: bytes, entries: table)
    ensures Strict(s) == Ok(entries) <==> U.Valid(s) && Goptlib(s) == Ok(entries) && Escaped(s)
  {
    if s != [] {
      hide Run, Pairs, StrictPairs, U.Valid, Escaped;
      RunPairs(s, 0, map[]);
      assert s[0..] == s;
      PairsStrict(s, map[]);
      if StrictPairs(s, map[]).Some? {
        AcceptedIsUtf8(s, map[]);
      }
    }
  }

  // ---- Round trip ----

  function Escape(x: bytes): bytes {
    if x == [] then []
    else (if Special(x[0]) then [BACKSLASH, x[0]] else [x[0]]) + Escape(x[1..])
  }

  /** `k=v;k=v`, escaped. */
  function Encode(pairs: seq<(bytes, bytes)>): bytes
    requires pairs != []
  {
    Escape(pairs[0].0) + [EQUALS] + Escape(pairs[0].1)
    + if |pairs| == 1 then [] else [SEMICOLON] + Encode(pairs[1..])
  }

  ghost predicate Encodable(pairs: seq<(bytes, bytes)>) {
    forall i :: 0 <= i < |pairs| ==> pairs[i].0 != [] && U.Valid(pairs[i].0) && U.Valid(pairs[i].1)
  }

  lemma {:induction false} ScanEscape(x: bytes, rest: bytes, term: set<byte>)
    requires term == KEY_END || term == VALUE_END
    requires rest == [] || rest[0] in term
    ensures Scan(Escape(x) + rest, term, true) == Some(Scanned(|Escape(x)|, x))
  {
    hide Scan, Escape, Special;
    EscapeSays(x, rest);
    if x == [] {
      ScanStop(rest, term);
    } else {
      ScanEscape(x[1..], rest, term);
      ScanOne(x[0], Escape(x[1..]) + rest, term);
      assert [x[0]] + x[1..] == x;
    }
  }

  lemma EscapeSays(x: bytes, rest: bytes)
    ensures x == [] ==> Escape(x) == [] && Escape(x) + rest == rest
    ensures x != [] ==>
              var front := if Special(x[0]) then [BACKSLASH, x[0]] else [x[0]];
              Escape(x) + rest == front + (Escape(x[1..]) + rest) && |Escape(x)| == |front| + |Escape(x[1..])|
  {
    hide Escape, Special;
    EscapeFront(x);
    if x == [] {
      assert [] + rest == rest;
    } else {
      Joined(if Special(x[0]) then [BACKSLASH, x[0]] else [x[0]], Escape(x[1..]), rest);
    }
  }

  lemma EscapeFront(x: bytes)
    ensures Escape(x) == if x == [] then [] else (if Special(x[0]) then [BACKSLASH, x[0]] else [x[0]]) + Escape(x[1..])
  {
  }

  lemma ScanStop(s: bytes, term: set<byte>)
    requires s == [] || s[0] in term
    ensures Scan(s, term, true) == Some(Scanned(0, []))
  {
  }

  lemma ScanOne(b: byte, more: bytes, term: set<byte>)
    requires term == KEY_END || term == VALUE_END
    ensures Scan((if Special(b) then [BACKSLASH, b] else [b]) + more, term, true)
         == After(if Special(b) then 2 else 1, [b], Scan(more, term, true))
  {
    if Special(b) {
      assert ([BACKSLASH, b] + more)[2..] == more;
    } else {
      assert ([b] + more)[1..] == more;
    }
  }

  lemma FrontOfEncoding(k: bytes, v: bytes, rest: bytes)
    requires k != [] && U.Valid(k) && U.Valid(v) && (rest == [] || rest[0] == SEMICOLON)
    ensures StrictFront(Escape(k) + [EQUALS] + Escape(v) + rest)
         == Some(Pair(k, v, if rest == [] then None else Some(rest[1..])))
  {
    hide Scan, Escape, U.Valid;
    var t := Escape(v) + rest;
    var s := Escape(k) + ([EQUALS] + t);
    assert s == Escape(k) + [EQUALS] + Escape(v) + rest;
    ScanEscape(k, [EQUALS] + t, KEY_END);
    assert s[|Escape(k)|] == EQUALS && s[|Escape(k)| + 1..] == t;
    ScanEscape(v, rest, VALUE_END);
    if rest != [] {
      assert t[|Escape(v)| + 1..] == rest[1..];
    }
  }

  lemma {:induction false} EncodedPairs(pairs: seq<(bytes, bytes)>, entries: table)
    requires pairs != [] && Encodable(pairs)
    ensures StrictPairs(Encode(pairs), entries) == Some(AddAll(entries, pairs))
    decreases |pairs|
  {
    hide StrictFront, Escape, U.Valid, Added;
    var rest := if |pairs| == 1 then [] else [SEMICOLON] + Encode(pairs[1..]);
    FrontOfEncoding(pairs[0].0, pairs[0].1, rest);
    if |pairs| > 1 {
      assert rest[1..] == Encode(pairs[1..]);
      EncodedPairs(pairs[1..], Added(entries, pairs[0].0, pairs[0].1));
    }
  }

  /** Both parsers read back any pairs that are escaped and joined. */
  lemma EncodeParses(pairs: seq<(bytes, bytes)>)
    requires pairs != [] && Encodable(pairs)
    ensures Strict(Encode(pairs)) == Ok(AddAll(map[], pairs))
    ensures Goptlib(Encode(pairs)) == Ok(AddAll(map[], pairs))
  {
    var s := Encode(pairs);
    EncodedPairs(pairs, map[]);
    RunPairs(s, 0, map[]);
    assert s[0..] == s;
    SameLanguage(s, AddAll(map[], pairs));
  }

  // ---- The loop ----

  method ParseClientParameters(argStr: bytes) returns (r: Result<Args, ParseError>)
    ensures r.Ok? ==> fresh(r.value) && Strict(argStr) == Ok(r.value.entries)
    ensures r.Err? ==> Strict(argStr) == Err(r.error)
    ensures r.Ok? <==> U.Valid(argStr) && Goptlib(argStr).Ok? && Escaped(argStr)
    ensures r.Ok? ==> Goptlib(argStr) == Ok(r.value.entries)
  {
    if Strict(argStr).Ok? {
      SameLanguage(argStr, Strict(argStr).value);
    } else if Goptlib(argStr).Ok? {
      SameLanguage(argStr, Goptlib(argStr).value);
    }
    hide Goptlib, Escaped, U.Valid, Added;
    var args := new Args();
    if argStr == [] {
      return Ok(args);
    }
    var key: Option<bytes> := None;
    var acc: bytes := [];
    var prevIsEscape := false;
    for idx := 0 to |argStr|
      invariant fresh(args)
      invariant Run(argStr, idx, State(key, acc, prevIsEscape, args.entries)) == Strict(argStr)
    {
      var ch := argStr[idx];
      if ch == BACKSLASH {
        prevIsEscape := !prevIsEscape;
        if prevIsEscape {
          continue;
        }
      } else if ch == EQUALS && !prevIsEscape {
        if key.None? {
          if acc == [] {
            return Err(UnexpectedEquals(idx));
          }
          if !U.Valid(acc) {
            return Err(NotUtf8);
          }
          key := Some(acc);
          acc := [];
          continue;
        }
      } else if ch == SEMICOLON && !prevIsEscape {
        if key.None? || idx == |argStr| - 1 {
          return Err(UnexpectedSemicolon(idx));
        }
        if !U.Valid(acc) {
          return Err(NotUtf8);
        }
        args.Add(key.value, acc);
        key := None;
        acc := [];
        continue;
      } else if ch == EQUALS || ch == SEMICOLON {
      } else if prevIsEscape {
        return Err(UnexpectedEscape(idx - 1));
      }
      prevIsEscape := false;
      acc := acc + [ch];
    }
    if prevIsEscape {
      return Err(Unterminated);
    }
    if key.None? {
      return Err(NoValue);
    }
    if !U.Valid(acc) {
      return Err(NotUtf8);
    }
    args.Add(key.value, acc);
    return Ok(args);
  }
}
