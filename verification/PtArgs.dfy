/** Transport arguments, and goptlib's lenient parser of key-value pairs. */
module PtArgs {
  import opened Words
  import opened Wrappers
  import U = Utf8

  const BACKSLASH: byte := 0x5C
  const EQUALS: byte := 0x3D
  const SEMICOLON: byte := 0x3B

  type bytes = seq<byte>

  /** Every error, with the index that its message names. */
  datatype ParseError =
    | DanglingEscape | NotUtf8 | NoEquals | EmptyKey
    | UnexpectedEquals(at: int) | UnexpectedSemicolon(at: int) | UnexpectedEscape(at: int)
    | Unterminated | NoValue

  type table = map<bytes, seq<bytes>>

  function Added(entries: table, key: bytes, value: bytes): table {
    entries[key := (if key in entries then entries[key] else []) + [value]]
  }

  function AddAll(entries: table, pairs: seq<(bytes, bytes)>): table
    decreases |pairs|
  {
    if pairs == [] then entries else AddAll(Added(entries, pairs[0].0, pairs[0].1), pairs[1..])
  }

  /** The value of the first pair with this key. */
  function FirstOf(pairs: seq<(bytes, bytes)>, key: bytes): Option<bytes> {
    if pairs == [] then None
    else if pairs[0].0 == key then Some(pairs[0].1)
    else FirstOf(pairs[1..], key)
  }

  /** Once a key has a value, adding changes nothing about its first one; before, the first
      pair added for it decides. */
  lemma {:induction false} FirstStays(entries: table, pairs: seq<(bytes, bytes)>, key: bytes)
    requires key in entries ==> entries[key] != []
    ensures var all := AddAll(entries, pairs);
            && (key in entries ==> key in all && all[key] != [] && all[key][0] == entries[key][0])
            && (key !in entries ==>
                  && (key in all <==> FirstOf(pairs, key).Some?)
                  && (key in all ==> all[key] != [] && FirstOf(pairs, key) == Some(all[key][0])))
    decreases |pairs|
  {
    if pairs != [] {
      FirstStays(Added(entries, pairs[0].0, pairs[0].1), pairs[1..], key);
    }
  }

  /** The values of all pairs with this key, in order. */
  function ValuesOf(pairs: seq<(bytes, bytes)>, key: bytes): seq<bytes> {
    if pairs == [] then []
    else (if pairs[0].0 == key then [pairs[0].1] else []) + ValuesOf(pairs[1..], key)
  }

  /** Adding pairs appends, for each key, the values it has among them. */
  lemma {:induction false} AddedInOrder(entries: table, pairs: seq<(bytes, bytes)>, key: bytes)
    ensures var all := AddAll(entries, pairs);
            var was: seq<bytes> := if key in entries then entries[key] else [];
            && (key in all <==> key in entries || ValuesOf(pairs, key) != [])
            && (key in all ==> all[key] == was + ValuesOf(pairs, key))
    decreases |pairs|
  {
    if pairs != [] {
      AddedInOrder(Added(entries, pairs[0].0, pairs[0].1), pairs[1..], key);
      var was: seq<bytes> := if key in entries then entries[key] else [];
      assert was + ([pairs[0].1] + ValuesOf(pairs[1..], key)) == was + [pairs[0].1] + ValuesOf(pairs[1..], key);
      assert was + ([] + ValuesOf(pairs[1..], key)) == was + ValuesOf(pairs[1..], key);
    } else {
      assert key in entries ==> entries[key] + [] == entries[key];
    }
  }

  lemma LookupIsFirst(entries: table, key: bytes)
    ensures forall pairs :: AddAll(map[], pairs) == entries ==>
              (if key in entries && entries[key] != [] then Some(entries[key][0]) else None) == FirstOf(pairs, key)
  {
    forall pairs | AddAll(map[], pairs) == entries
      ensures (if key in entries && entries[key] != [] then Some(entries[key][0]) else None) == FirstOf(pairs, key)
    {
      FirstStays(map[], pairs, key);
    }
  }

  /** The source's map from keys to values. */
  class Args {
    var entries: table

    constructor ()
      ensures entries == map[]
    {
      entries := map[];
    }

    /** After adding any pairs: the value of the first of them with this key. */
    function Get(key: bytes): (r: Option<bytes>)
      reads this
      ensures forall pairs :: AddAll(map[], pairs) == entries ==> r == FirstOf(pairs, key)
    {
      LookupIsFirst(entries, key);
      if key in entries && entries[key] != [] then Some(entries[key][0]) else None
    }

    method Add(key: bytes, value: bytes)
      modifies this
      ensures entries == Added(old(entries), key, value)
      ensures Get(key) == (if old(Get(key)).Some? then old(Get(key)) else Some(value))
    {
      var values := if key in entries then entries[key] else [];
      entries := entries[key := values + [value]];
    }
  }

  // ---- Scanning ----

  predicate Special(b: byte) {
    b == BACKSLASH || b == EQUALS || b == SEMICOLON
  }

  datatype Scanned = Scanned(used: nat, text: bytes)

  /** A scan resumed after `n` bytes that unescaped to `t`. */
  function After(n: nat, t: bytes, r: Option<Scanned>): Option<Scanned> {
    if r.None? then None else Some(Scanned(n + r.value.used, t + r.value.text))
  }

  lemma AfterAfter(n: nat, t: bytes, m: nat, u: bytes, r: Option<Scanned>)
    ensures After(n, t, After(m, u, r)) == After(n + m, t + u, r)
  {
    if r.Some? {
      assert t + (u + r.value.text) == t + u + r.value.text;
    }
  }

  lemma AfterNothing(r: Option<Scanned>)
    ensures After(0, [], r) == r
  {
    if r.Some? {
      assert [] + r.value.text == r.value.text;
    }
  }

  /** The text up to the first unescaped byte of `term`, or to the end. A strict scan lets a
      backslash stand only before a special byte. */
  function Scan(s: bytes, term: set<byte>, strict: bool): (r: Option<Scanned>)
    ensures r.Some? ==> r.value.used <= |s| && (r.value.used < |s| ==> s[r.value.used] in term)
    ensures r.Some? ==> (r.value.text == [] <==> r.value.used == 0)
  {
    if s == [] || s[0] in term then Some(Scanned(0, []))
    else if s[0] == BACKSLASH then
      if |s| < 2 || (strict && !Special(s[1])) then None
      else After(2, [s[1]], Scan(s[2..], term, strict))
    else After(1, [s[0]], Scan(s[1..], term, strict))
  }

  /** `index_unescaped`, with the check of the text. */
  function IndexUnescaped(s: bytes, term: set<byte>): (r: Result<Scanned, ParseError>)
    ensures r.Ok? ==> r.value.used <= |s| && (r.value.used < |s| ==> s[r.value.used] in term)
  {
    var r := Scan(s, term, false);
    if r.None? then Err(DanglingEscape)
    else if !U.Valid(r.value.text) then Err(NotUtf8)
    else Ok(r.value)
  }

  const KEY_END: set<byte> := {EQUALS, SEMICOLON}
  const VALUE_END: set<byte> := {SEMICOLON}

  /** A pair, and what follows the semicolon after it; `None` at the end of the string. */
  datatype Pair = Pair(key: bytes, value: bytes, rest: Option<bytes>)

  /** The pair at the front of a string. */
  function FrontPair(s: bytes): (r: Result<Pair, ParseError>)
    ensures r.Ok? && r.value.rest.Some? ==> |r.value.rest.value| < |s|
  {
    var key := IndexUnescaped(s, KEY_END);
    if key.Err? then Err(key.error)
    else if key.value.used >= |s| || s[key.value.used] != EQUALS then Err(NoEquals)
    else
      var t := s[key.value.used + 1..];
      var value := IndexUnescaped(t, VALUE_END);
      if value.Err? then Err(value.error)
      else if key.value.text == [] then Err(EmptyKey)
      else Ok(Pair(key.value.text, value.value.text,
                   if value.value.used >= |t| then None else Some(t[value.value.used + 1..])))
  }

  /** The pairs of a non-empty string, added to `entries`. */
  function Pairs(s: bytes, entries: table): Result<table, ParseError>
    decreases |s|
  {
    var p := FrontPair(s);
    if p.Err? then Err(p.error)
    else
      var entries' := Added(entries, p.value.key, p.value.value);
      if p.value.rest.None? then Ok(entries') else Pairs(p.value.rest.value, entries')
  }

  function Goptlib(s: bytes): Result<table, ParseError> {
    if s == [] then Ok(map[]) else Pairs(s, map[])
  }

  // ---- The loops ----

  method ScanUnescaped(s: bytes, term: set<byte>) returns (r: Result<Scanned, ParseError>)
    ensures r == IndexUnescaped(s, term)
  {
    hide Scan, After, U.Valid;
    var unesc: bytes := [];
    var i := 0;
    assert s[0..] == s;
    AfterNothing(Scan(s, term, false));
    while i < |s|
      invariant i <= |s| && Scan(s, term, false) == After(i, unesc, Scan(s[i..], term, false))
    {
      var b := s[i];
      if b in term {
        break;
      }
      ScanStep(s, i, unesc, term);
      if b == BACKSLASH {
        i := i + 1;
        if i >= |s| {
          Stuck(i - 1, unesc);
          return Err(DanglingEscape);
        }
        b := s[i];
      }
      unesc := unesc + [b];
      i := i + 1;
    }
    ScanEnds(s[i..], i, unesc, term);
    if !U.Valid(unesc) {
      return Err(NotUtf8);
    }
    return Ok(Scanned(i, unesc));
  }

  lemma ScanEnds(s: bytes, i: nat, unesc: bytes, term: set<byte>)
    requires s == [] || s[0] in term
    ensures After(i, unesc, Scan(s, term, false)) == Some(Scanned(i, unesc))
  {
    assert unesc + [] == unesc;
  }

  lemma Stuck(i: nat, unesc: bytes)
    ensures After(i, unesc, None) == None
  {
  }

  lemma ScanStep(s: bytes, i: nat, unesc: bytes, term: set<byte>)
    requires i < |s| && s[i] !in term
    ensures s[i] != BACKSLASH ==>
              After(i, unesc, Scan(s[i..], term, false)) == After(i + 1, unesc + [s[i]], Scan(s[i + 1..], term, false))
    ensures s[i] == BACKSLASH && i + 1 == |s| ==> Scan(s[i..], term, false) == None
    ensures s[i] == BACKSLASH && i + 1 < |s| ==>
              After(i, unesc, Scan(s[i..], term, false))
              == After(i + 2, unesc + [s[i + 1]], Scan(s[i + 2..], term, false))
  {
    var t := s[i..];
    if s[i] != BACKSLASH {
      assert t[1..] == s[i + 1..];
      AfterAfter(i, unesc, 1, [s[i]], Scan(s[i + 1..], term, false));
    } else if i + 1 < |s| {
      assert t[2..] == s[i + 2..];
      AfterAfter(i, unesc, 2, [s[i + 1]], Scan(s[i + 2..], term, false));
    }
  }

  /** `FrontPair` with absolute positions. */
  lemma FrontPairAt(s: bytes, begin: nat)
    requires begin <= |s|
    ensures var p, key := FrontPair(s[begin..]), IndexUnescaped(s[begin..], KEY_END);
            if key.Err? then p == Err(key.error)
            else
              var i := begin + key.value.used;
              if i >= |s| || s[i] != EQUALS then p == Err(NoEquals)
              else
                var value := IndexUnescaped(s[i + 1..], VALUE_END);
                if value.Err? then p == Err(value.error)
                else if key.value.text == [] then p == Err(EmptyKey)
                else
                  var j := i + 1 + value.value.used;
                  p == Ok(Pair(key.value.text, value.value.text, if j >= |s| then None else Some(s[j + 1..])))
  {
    hide IndexUnescaped;
    var key := IndexUnescaped(s[begin..], KEY_END);
    if key.Ok? && begin + key.value.used < |s| {
      var i := begin + key.value.used + 1;
      assert s[begin..][key.value.used + 1..] == s[i..];
      var value := IndexUnescaped(s[i..], VALUE_END);
      if value.Ok? && i + value.value.used < |s| {
        assert s[i..][value.value.used + 1..] == s[i + value.value.used + 1..];
      }
    }
  }

  lemma PairsStep(s: bytes, entries: table)
    ensures var p := FrontPair(s);
            Pairs(s, entries)
            == if p.Err? then Err(p.error)
               else if p.value.rest.None? then Ok(Added(entries, p.value.key, p.value.value))
               else Pairs(p.value.rest.value, Added(entries, p.value.key, p.value.value))
  {
  }

  lemma GoptlibStart(s: bytes)
    ensures Goptlib(s) == if s == [] then Ok(map[]) else Pairs(s[0..], map[])
  {
    assert s[0..] == s;
  }

  lemma PairsAt(s: bytes, begin: nat, key: Scanned, value: Scanned, end: nat, entries: table)
    requires begin <= |s| && IndexUnescaped(s[begin..], KEY_END) == Ok(key) && key.text != []
    requires begin + key.used < |s| && s[begin + key.used] == EQUALS
    requires IndexUnescaped(s[begin + key.used + 1..], VALUE_END) == Ok(value)
    requires end == begin + key.used + 1 + value.used
    ensures Pairs(s[begin..], entries)
         == if end >= |s| then Ok(Added(entries, key.text, value.text))
            else Pairs(s[end + 1..], Added(entries, key.text, value.text))
  {
    hide *;
    FrontPairAt(s, begin);
    PairsStep(s[begin..], entries);
  }

  /** `parse_client_parameters` of args.rs; its argument is a `&str`. */
  method ParseClientParameters(s: bytes) returns (r: Result<Args, ParseError>)
    requires U.Valid(s)
    ensures r.Ok? ==> fresh(r.value) && Goptlib(s) == Ok(r.value.entries)
    ensures r.Err? ==> Goptlib(s) == Err(r.error)
  {
    hide *;
    GoptlibStart(s);
    var args := new Args();
    if s == [] {
      return Ok(args);
    }
    var i := 0;
    while true
      invariant i <= |s| && fresh(args) && Pairs(s[i..], args.entries) == Goptlib(s)
      decreases |s| - i
    {
      ghost var begin := i;
      FrontPairAt(s, i);
      PairsStep(s[i..], args.entries);
      var key := ScanUnescaped(s[i..], KEY_END);
      if key.Err? {
        return Err(key.error);
      }
      i := i + key.value.used;
      if i >= |s| || s[i] != EQUALS {
        return Err(NoEquals);
      }
      i := i + 1;
      var value := ScanUnescaped(s[i..], VALUE_END);
      if value.Err? {
        return Err(value.error);
      }
      i := i + value.value.used;
      if key.value.text == [] {
        return Err(EmptyKey);
      }
      PairsAt(s, begin, key.value, value.value, i, args.entries);
      args.Add(key.value.text, value.value.text);
      if i >= |s| {
        break;
      }
      i := i + 1;
    }
    return Ok(args);
  }

  // ---- Text never fails on a string ----

  lemma AfterFirst(t: bytes, w: nat)
    requires 0 < w <= |t|
    ensures t[1..][w - 1..] == t[w..] && [t[0]] + t[1..][..w - 1] == t[..w]
  {
  }

  lemma ScanHigh(s: bytes, term: set<byte>, strict: bool)
    requires s != [] && s[0] >= 0x80 && forall b :: b in term ==> b < 0x80
    ensures Scan(s, term, strict) == After(1, [s[0]], Scan(s[1..], term, strict))
  {
  }

  /** Bytes of a multi-byte character are neither special nor terminators. */
  lemma {:induction false} ScanPlain(s: bytes, k: nat, term: set<byte>, strict: bool)
    requires k <= |s| && (forall i :: 0 <= i < k ==> s[i] >= 0x80) && forall b :: b in term ==> b < 0x80
    ensures Scan(s, term, strict) == After(k, s[..k], Scan(s[k..], term, strict))
  {
    hide *;
    if k > 0 {
      ScanHigh(s, term, strict);
      ScanPlain(s[1..], k - 1, term, strict);
      AfterFirst(s, k);
      AfterAfter(1, [s[0]], k - 1, s[1..][..k - 1], Scan(s[k..], term, strict));
    } else {
      assert s[0..] == s && s[..0] == [];
      AfterNothing(Scan(s, term, strict));
    }
  }

  lemma AfterAscii(s: bytes)
    requires U.Valid(s) && s != [] && s[0] < 0x80
    ensures U.Valid(s[1..])
  {
    assert s == [] + [s[0]] + s[1..];
    U.Cut([], s[0], s[1..]);
  }

  /** Unescaping part of a well-formed string gives a well-formed text and leaves a
      well-formed rest, whatever is escaped. */
  lemma {:induction false} ScanIsText(s: bytes, term: set<byte>)
    requires U.Valid(s) && forall b :: b in term ==> b < 0x80
    ensures var r := Scan(s, term, false);
            r.Some? ==> U.Valid(r.value.text) && U.Valid(s[r.value.used..])
    decreases |s|
  {
    var r := Scan(s, term, false);
    if r.Some? && s != [] && s[0] !in term {
      var skip := if s[0] == BACKSLASH then 1 else 0;
      if skip == 1 {
        AfterAscii(s);
      }
      CharIsText(s, skip, term);
    }
  }

  lemma FrontIsText(t: bytes)
    requires U.Valid(t) && t != []
    ensures U.Width(t) > 0 && U.Valid(t[U.Width(t)..])
  {
  }

  /** One character, escaped or not. */
  lemma CharIsText(s: bytes, skip: nat, term: set<byte>)
    requires skip <= 1 && skip < |s| && U.Valid(s[skip..]) && s[0] !in term && (skip == 1 <==> s[0] == BACKSLASH)
    requires Scan(s, term, false).Some? && forall b :: b in term ==> b < 0x80
    ensures var r := Scan(s, term, false).value; U.Valid(r.text) && U.Valid(s[r.used..])
    decreases |s|, 0
  {
    hide Scan, U.Valid, U.Width;
    var t := s[skip..];
    var w := U.Width(t);
    FrontIsText(t);
    ScanChar(s, skip, w, term);
    ScanIsText(t[w..], term);
    var after := Scan(t[w..], term, false).value;
    U.FrontChar(t);
    U.Prepend(t[..w], after.text);
    assert s[skip + w + after.used..] == t[w..][after.used..];
  }

  lemma ScanFirst(s: bytes, skip: nat, term: set<byte>)
    requires skip <= 1 && skip < |s| && s[0] !in term && (skip == 1 <==> s[0] == BACKSLASH)
    ensures Scan(s, term, false) == After(skip + 1, [s[skip]], Scan(s[skip..][1..], term, false))
  {
    assert s[skip..][1..] == s[skip + 1..];
  }

  lemma ScanChar(s: bytes, skip: nat, w: nat, term: set<byte>)
    requires skip <= 1 && skip < |s| && s[0] !in term && (skip == 1 <==> s[0] == BACKSLASH)
    requires w == U.Width(s[skip..]) > 0 && forall b :: b in term ==> b < 0x80
    ensures Scan(s, term, false) == After(skip + w, s[skip..][..w], Scan(s[skip..][w..], term, false))
  {
    hide *;
    var t := s[skip..];
    ScanFirst(s, skip, term);
    ScanPlain(t[1..], w - 1, term, false);
    AfterFirst(t, w);
    AfterAfter(skip + 1, [t[0]], w - 1, t[1..][..w - 1], Scan(t[w..], term, false));
  }

  lemma IndexIsText(s: bytes, term: set<byte>)
    requires U.Valid(s) && forall b :: b in term ==> b < 0x80
    ensures var r := IndexUnescaped(s, term);
            r != Err(NotUtf8) && (r.Ok? && r.value.used < |s| ==> U.Valid(s[r.value.used + 1..]))
  {
    hide Scan, U.Valid;
    ScanIsText(s, term);
    var r := Scan(s, term, false);
    if r.Some? && r.value.used < |s| {
      AfterAscii(s[r.value.used..]);
      assert s[r.value.used..][1..] == s[r.value.used + 1..];
    }
  }

  lemma PairIsText(s: bytes)
    requires U.Valid(s)
    ensures var p := FrontPair(s); p != Err(NotUtf8) && (p.Ok? && p.value.rest.Some? ==> U.Valid(p.value.rest.value))
  {
    hide IndexUnescaped, U.Valid;
    IndexIsText(s, KEY_END);
    var key := IndexUnescaped(s, KEY_END);
    if key.Ok? && key.value.used < |s| {
      IndexIsText(s[key.value.used + 1..], VALUE_END);
    }
  }

  /** On a `&str` the parser never reports bad UTF-8. */
  lemma {:induction false} StringsStayText(s: bytes, entries: table)
    requires U.Valid(s)
    ensures Pairs(s, entries) != Err(NotUtf8)
    decreases |s|
  {
    hide FrontPair, U.Valid;
    PairIsText(s);
    var p := FrontPair(s);
    if p.Ok? && p.value.rest.Some? {
      StringsStayText(p.value.rest.value, Added(entries, p.value.key, p.value.value));
    }
  }
}
