/** Cursor paging, from paging/paging.go. Strings are sequences of bytes, as in Go. */
module Paging {
  import opened Base64
  import opened Common
  import opened Decimal

  const COLON: Byte := 58
  const DEFAULT_LIMIT: int := 256
  const MAX_LIMIT: int := 1024

  const FORWARD: Text := [102, 111, 114, 119, 97, 114, 100]
  const BACKWARD: Text := [98, 97, 99, 107, 119, 97, 114, 100]

  // ----- Cursors -----

  datatype CursorError = NotBase64 | NoColon | NotANumber

  function EncodeCursor(value: Text): Text {
    Encode(value)
  }

  function DecodeCursor(cursor: Text): Result<(Text, Int64), CursorError> {
    var decoded := Decode(cursor);
    if decoded.None? then Failure(NotBase64)
    else
      var parts := SplitFirst(decoded.value, COLON);
      if parts.None? then Failure(NoColon)
      else
        var timestamp := Parse(parts.value.1);
        if timestamp.None? then Failure(NotANumber) else Success((parts.value.0, timestamp.value))
  }

  /**
   * Encoding "id:timestamp" and decoding it again returns the same pair for every 64-bit
   * timestamp, exactly when the ID contains no colon.
   */
  lemma CursorRoundTrip(id: Text, timestamp: Int64)
    ensures DecodeCursor(EncodeCursor(id + [COLON] + Format(timestamp))) == Success((id, timestamp)) <==> COLON !in id
  {
    EncodeRoundTrip(id + [COLON] + Format(timestamp));
    SplitUndoesJoin(id, COLON, Format(timestamp));
    FormatRoundTrip(timestamp);
  }

  /** A cursor is accepted exactly if it encodes an ID without a colon, a colon and a number. */
  lemma AcceptedCursorIff(cursor: Text, id: Text, timestamp: Int64)
    ensures DecodeCursor(cursor) == Success((id, timestamp)) <==>
      exists digits ::
        Decode(cursor) == Some(id + [':' as int] + digits) && ':' as int !in id && Parse(digits) == Some(timestamp)
  {
    if Decode(cursor).Some? {
      var text := Decode(cursor).value;
      SplitFirstIs(text, COLON);
      forall digits | text == id + [COLON] + digits && COLON !in id
        ensures SplitFirst(text, COLON) == Some((id, digits))
      {
        SplitUndoesJoin(id, COLON, digits);
      }
    }
  }

  /** Which error a cursor gives. */
  lemma CursorErrors(cursor: Text)
    ensures DecodeCursor(cursor) == Failure(NotBase64) <==> Decode(cursor) == None
    ensures DecodeCursor(cursor) == Failure(NoColon) <==> Decode(cursor).Some? && ':' as int !in Decode(cursor).value
  {
    if Decode(cursor).Some? {
      SplitFirstIs(Decode(cursor).value, COLON);
    }
  }

  // ----- Parameters -----

  datatype Params = Params(cursor: Text, limit: int, direction: Text)

  predicate IsAsciiSpace(b: Byte) {
    b == 32 || 9 <= b <= 13
  }

  /** How many bytes the white-space character at the start of `s` has, or 0 if there is none. */
  function SpaceBytes(s: Text): nat
    ensures SpaceBytes(s) <= |s|
  {
    if |s| >= 1 && IsAsciiSpace(s[0]) then 1
    else if |s| >= 2 && s[0] == 0xC2 && (s[1] == 0x85 || s[1] == 0xA0) then 2
    else if |s| >= 3 && IsWideSpace(s[0], s[1], s[2]) then 3
    else 0
  }

  /** U+1680, U+2000 to U+200A, U+2028, U+2029, U+202F, U+205F and U+3000 in UTF-8. */
  predicate IsWideSpace(a: Byte, b: Byte, c: Byte) {
    || (a == 0xE1 && b == 0x9A && c == 0x80)
    || (a == 0xE2 && b == 0x80 && (0x80 <= c <= 0x8A || c == 0xA8 || c == 0xA9 || c == 0xAF))
    || (a == 0xE2 && b == 0x81 && c == 0x9F)
    || (a == 0xE3 && b == 0x80 && c == 0x80)
  }

  function TrimLeft(s: Text): Text
    decreases |s|
  {
    if SpaceBytes(s) == 0 then s else TrimLeft(s[SpaceBytes(s)..])
  }

  function TrailingSpaceBytes(s: Text): nat
    ensures TrailingSpaceBytes(s) <= |s|
  {
    if |s| >= 1 && IsAsciiSpace(s[|s| - 1]) then 1
    else if |s| >= 2 && SpaceBytes(s[|s| - 2..]) == 2 then 2
    else if |s| >= 3 && SpaceBytes(s[|s| - 3..]) == 3 then 3
    else 0
  }

  function TrimRight(s: Text): Text
    decreases |s|
  {
    if TrailingSpaceBytes(s) == 0 then s else TrimRight(s[..|s| - TrailingSpaceBytes(s)])
  }

  function TrimSpace(s: Text): Text {
    TrimRight(TrimLeft(s))
  }

  /** strings.ToLower as far as it can yield ASCII letters; U+212A is the Kelvin sign. */
  function ToLower(s: Text): Text {
    if s == [] then []
    else if |s| >= 3 && s[..3] == [0xE2, 0x84, 0xAA] then [107] + ToLower(s[3..])
    else [if 65 <= s[0] <= 90 then s[0] + 32 else s[0]] + ToLower(s[1..])
  }

  function NormalizeParams(p: Params): (r: Params)
    ensures r.direction == FORWARD || r.direction == BACKWARD
    ensures r.direction == BACKWARD <==> !IsForward(p.direction)
    ensures r.limit == if 1 <= p.limit <= 1024 then p.limit else 256
    ensures r.cursor == TrimSpace(p.cursor)
  {
    var direction := ToLower(TrimSpace(p.direction));
    Params(
      TrimSpace(p.cursor),
      PageSize(p.limit),
      if direction != FORWARD && direction != BACKWARD then FORWARD else direction)
  }

  lemma {:induction false} TrimLeftDone(s: Text)
    ensures SpaceBytes(TrimLeft(s)) == 0
    decreases |s|
  {
    if SpaceBytes(s) > 0 {
      TrimLeftDone(s[SpaceBytes(s)..]);
    }
  }

  /** Cutting off the end uncovers no white space at the start. */
  lemma PrefixStarts(s: Text, k: nat)
    requires SpaceBytes(s) == 0 && k <= |s|
    ensures SpaceBytes(s[..k]) == 0
  {
  }

  lemma {:induction false} TrimRightDone(s: Text)
    requires SpaceBytes(s) == 0
    ensures SpaceBytes(TrimRight(s)) == 0 && TrailingSpaceBytes(TrimRight(s)) == 0
    decreases |s|
  {
    var n := TrailingSpaceBytes(s);
    if n > 0 {
      PrefixStarts(s, |s| - n);
      TrimRightDone(s[..|s| - n]);
    }
  }

  /** Trimming is done after one time. */
  lemma TrimTwice(s: Text)
    ensures TrimSpace(TrimSpace(s)) == TrimSpace(s)
  {
    TrimLeftDone(s);
    TrimRightDone(TrimLeft(s));
  }

  // ----- What trimming and lower case mean -----

  /** The UTF-8 encoding of a code point below U+10000. */
  function Utf8(c: nat): Text
    requires c < 0x1_0000
  {
    if c < 0x80 then [c]
    else if c < 0x800 then [0xC0 + c / 0x40, 0x80 + c % 0x40]
    else [0xE0 + c / 0x1000, 0x80 + c / 0x40 % 0x40, 0x80 + c % 0x40]
  }

  /** The code points with the White_Space property of Unicode. */
  predicate IsWhiteSpace(c: nat) {
    || 0x9 <= c <= 0xD || c == 0x20 || c == 0x85 || c == 0xA0 || c == 0x1680 || 0x2000 <= c <= 0x200A
    || c == 0x2028 || c == 0x2029 || c == 0x202F || c == 0x205F || c == 0x3000
  }

  /** `s` is the encoding of a white-space character. */
  ghost predicate IsSpace(s: Text) {
    exists c: nat :: IsWhiteSpace(c) && s == Utf8(c)
  }

  /** The encoding of a string of white-space characters. */
  ghost predicate AllWhiteSpace(cs: seq<nat>) {
    forall i :: 0 <= i < |cs| ==> IsWhiteSpace(cs[i])
  }

  ghost function Encoded(cs: seq<nat>): Text
    requires AllWhiteSpace(cs)
  {
    if cs == [] then [] else Utf8(cs[0]) + Encoded(cs[1..])
  }

  lemma {:induction false} EncodedSnoc(cs: seq<nat>, c: nat)
    requires AllWhiteSpace(cs) && IsWhiteSpace(c)
    ensures Encoded(cs + [c]) == Encoded(cs) + Utf8(c)
  {
    if cs == [] {
      assert cs + [c] == [c] && [c][1..] == [];
    } else {
      EncodedSnoc(cs[1..], c);
      assert (cs + [c])[1..] == cs[1..] + [c];
      Regroup(Utf8(cs[0]), Encoded(cs[1..]), Utf8(c));
    }
  }

  lemma OneByteSpace(b: Byte)
    ensures IsSpace([b]) <==> IsAsciiSpace(b)
  {
    if IsAsciiSpace(b) {
      assert IsWhiteSpace(b) && Utf8(b) == [b];
    }
  }

  lemma TwoByteSpace(a: Byte, b: Byte)
    ensures IsSpace([a, b]) <==> a == 0xC2 && (b == 0x85 || b == 0xA0)
  {
    assert Utf8(0x85) == [0xC2, 0x85] && Utf8(0xA0) == [0xC2, 0xA0];
    assert IsWhiteSpace(0x85) && IsWhiteSpace(0xA0);
  }

  lemma WideSpaceIsSpace(a: Byte, b: Byte, c: Byte)
    requires IsWideSpace(a, b, c)
    ensures IsSpace([a, b, c])
  {
    var u: nat := (a as int - 0xE0) * 0x1000 + (b as int - 0x80) * 0x40 + (c as int - 0x80);
    assert IsWhiteSpace(u) && Utf8(u) == [a, b, c];
  }

  lemma WhiteSpaceIsWide(u: nat)
    requires IsWhiteSpace(u) && u >= 0x800
    ensures var s := Utf8(u); |s| == 3 && IsWideSpace(s[0], s[1], s[2])
  {
  }

  lemma ThreeByteSpace(a: Byte, b: Byte, c: Byte)
    ensures IsSpace([a, b, c]) <==> IsWideSpace(a, b, c)
  {
    if IsWideSpace(a, b, c) {
      WideSpaceIsSpace(a, b, c);
    }
    if IsSpace([a, b, c]) {
      var u: nat :| IsWhiteSpace(u) && [a, b, c] == Utf8(u);
      WhiteSpaceIsWide(u);
    }
  }

  /** No white-space character stands at the start of `s`. */
  ghost predicate StartsClean(s: Text) {
    forall n: nat :: n <= |s| ==> !IsSpace(s[..n])
  }

  ghost predicate EndsClean(s: Text) {
    forall i: nat :: i <= |s| ==> !IsSpace(s[i..])
  }

  lemma SpaceLength(s: Text)
    requires IsSpace(s)
    ensures 1 <= |s| <= 3
  {
  }

  lemma SpaceIs(s: Text)
    ensures IsSpace(s) <==> 1 <= |s| <= 3 && SpaceBytes(s) == |s|
  {
    if |s| == 1 {
      assert s == [s[0]];
      OneByteSpace(s[0]);
    } else if |s| == 2 {
      assert s == [s[0], s[1]];
      TwoByteSpace(s[0], s[1]);
    } else if |s| == 3 {
      assert s == [s[0], s[1], s[2]];
      ThreeByteSpace(s[0], s[1], s[2]);
    } else if IsSpace(s) {
      SpaceLength(s);
    }
  }

  lemma SpaceAtStart(s: Text)
    ensures SpaceBytes(s) > 0 ==> IsSpace(s[..SpaceBytes(s)])
    ensures SpaceBytes(s) == 0 ==> StartsClean(s)
  {
    if SpaceBytes(s) > 0 {
      SpaceIs(s[..SpaceBytes(s)]);
    } else {
      forall n: nat | n <= |s| ensures !IsSpace(s[..n]) {
        SpaceIs(s[..n]);
      }
    }
  }

  lemma TrailingIsSpace(s: Text)
    requires TrailingSpaceBytes(s) > 0
    ensures IsSpace(s[|s| - TrailingSpaceBytes(s)..])
  {
    var t := s[|s| - TrailingSpaceBytes(s)..];
    assert SpaceBytes(t) == |t|;
    SpaceIs(t);
  }

  lemma NoTrailingSpace(s: Text, i: nat)
    requires TrailingSpaceBytes(s) == 0 && i <= |s|
    ensures !IsSpace(s[i..])
  {
    SpaceIs(s[i..]);
    if |s| - i == 1 {
      assert s[i..][0] == s[|s| - 1];
    } else if |s| - i == 2 {
      assert s[i..] == s[|s| - 2..];
    } else if |s| - i == 3 {
      assert s[i..] == s[|s| - 3..];
    }
  }

  lemma SpaceAtEnd(s: Text)
    requires TrailingSpaceBytes(s) == 0
    ensures EndsClean(s)
  {
    forall i: nat | i <= |s| ensures !IsSpace(s[i..]) {
      NoTrailingSpace(s, i);
    }
  }

  /** One white-space character less at the start. */
  lemma TrimLeftStep(s: Text) returns (c: nat, rest: Text)
    requires SpaceBytes(s) > 0
    ensures IsWhiteSpace(c) && s == Utf8(c) + rest && |rest| < |s| && TrimLeft(s) == TrimLeft(rest)
  {
    var n := SpaceBytes(s);
    rest := s[n..];
    SpaceAtStart(s);
    c :| IsWhiteSpace(c) && s[..n] == Utf8(c);
    assert s == s[..n] + rest;
  }

  lemma TrimRightStep(s: Text) returns (c: nat, rest: Text)
    requires TrailingSpaceBytes(s) > 0
    ensures IsWhiteSpace(c) && s == rest + Utf8(c) && |rest| < |s| && TrimRight(s) == TrimRight(rest)
  {
    var k := |s| - TrailingSpaceBytes(s);
    rest := s[..k];
    TrailingIsSpace(s);
    c :| IsWhiteSpace(c) && s[k..] == Utf8(c);
    assert s == rest + s[k..];
  }

  lemma EncodedCons(c: nat, cs: seq<nat>)
    requires IsWhiteSpace(c) && AllWhiteSpace(cs)
    ensures AllWhiteSpace([c] + cs) && Encoded([c] + cs) == Utf8(c) + Encoded(cs)
  {
    assert ([c] + cs)[1..] == cs;
  }

  lemma {:induction false} TrimLeftIs(s: Text) returns (cs: seq<nat>)
    ensures AllWhiteSpace(cs) && s == Encoded(cs) + TrimLeft(s)
    decreases |s|
  {
    if SpaceBytes(s) == 0 {
      cs := [];
    } else {
      var c, rest := TrimLeftStep(s);
      var more := TrimLeftIs(rest);
      EncodedCons(c, more);
      Regroup(Utf8(c), Encoded(more), TrimLeft(rest));
      cs := [c] + more;
    }
  }

  lemma {:induction false} TrimRightIs(s: Text) returns (cs: seq<nat>)
    ensures AllWhiteSpace(cs) && s == TrimRight(s) + Encoded(cs)
    decreases |s|
  {
    if TrailingSpaceBytes(s) == 0 {
      cs := [];
      assert s == s + Encoded(cs);
    } else {
      var c, rest := TrimRightStep(s);
      var more := TrimRightIs(rest);
      OneSpaceMore(s, TrimRight(rest), rest, more, c);
      cs := more + [c];
    }
  }

  lemma OneSpaceMore(s: Text, t: Text, rest: Text, cs: seq<nat>, c: nat)
    requires IsWhiteSpace(c) && AllWhiteSpace(cs) && s == rest + Utf8(c) && rest == t + Encoded(cs)
    ensures AllWhiteSpace(cs + [c]) && s == t + Encoded(cs + [c])
  {
    EncodedSnoc(cs, c);
    Regroup(t, Encoded(cs), Utf8(c));
  }

  /** Trimming takes white space away at both ends, only that, and all of it. */
  lemma TrimSpaceIs(s: Text) returns (before: seq<nat>, after: seq<nat>)
    ensures AllWhiteSpace(before) && AllWhiteSpace(after)
    ensures s == Encoded(before) + TrimSpace(s) + Encoded(after)
    ensures StartsClean(TrimSpace(s)) && EndsClean(TrimSpace(s))
  {
    before := TrimLeftIs(s);
    after := TrimRightIs(TrimLeft(s));
    Regroup(Encoded(before), TrimSpace(s), Encoded(after));
    TrimmedIsClean(s);
  }

  lemma TrimmedIsClean(s: Text)
    ensures StartsClean(TrimSpace(s)) && EndsClean(TrimSpace(s))
  {
    TrimLeftDone(s);
    TrimRightDone(TrimLeft(s));
    SpaceAtStart(TrimSpace(s));
    SpaceAtEnd(TrimSpace(s));
  }

  /** Letters in any mixture of upper and lower case become lower case. */
  lemma {:induction false} AnyCase(s: Text, lower: Text)
    requires |s| == |lower| && forall i :: 0 <= i < |s| ==> IsLowerLetter(lower[i])
    requires forall i :: 0 <= i < |s| ==> s[i] == lower[i] || s[i] as int + 32 == lower[i]
    ensures ToLower(s) == lower
  {
    if s != [] {
      AnyCase(s[1..], lower[1..]);
      assert IsLowerLetter(lower[0]);
      assert lower == [lower[0]] + lower[1..];
    }
  }

  /** The two directions as text. */
  lemma Directions()
    ensures |FORWARD| == |"forward"| && forall i :: 0 <= i < |FORWARD| ==> FORWARD[i] == "forward"[i] as int
    ensures |BACKWARD| == |"backward"| && forall i :: 0 <= i < |BACKWARD| ==> BACKWARD[i] == "backward"[i] as int
  {
  }

  predicate IsLowerLetter(b: Byte) {
    97 <= b <= 122
  }

  lemma {:induction false} LowerLettersStay(s: Text)
    requires forall i :: 0 <= i < |s| ==> IsLowerLetter(s[i])
    ensures ToLower(s) == s
  {
    if s != [] {
      assert IsLowerLetter(s[0]);
      LowerLettersStay(s[1..]);
      assert s == [s[0]] + s[1..];
    }
  }

  /** Normalizing is done after one time. In particular "forward" and "backward" are kept. */
  lemma {:induction false} NormalizeTwice(p: Params, r: Params)
    requires r == NormalizeParams(p)
    ensures NormalizeParams(r) == r
  {
    TrimTwice(p.cursor);
    DirectionStays(r.direction);
  }

  lemma {:induction false} DirectionStays(direction: Text)
    requires direction == FORWARD || direction == BACKWARD
    ensures ToLower(TrimSpace(direction)) == direction
  {
    LettersStay(direction);
  }

  lemma LettersStay(s: Text)
    requires s != [] && forall i :: 0 <= i < |s| ==> IsLowerLetter(s[i])
    ensures ToLower(TrimSpace(s)) == s
  {
    LettersAreNoSpace(s);
    NothingToTrim(s);
    LowerLettersStay(s);
  }

  lemma LettersAreNoSpace(s: Text)
    requires s != [] && IsLowerLetter(s[0]) && IsLowerLetter(s[|s| - 1])
    ensures SpaceBytes(s) == 0 && TrailingSpaceBytes(s) == 0
  {
  }

  lemma NothingToTrim(s: Text)
    requires SpaceBytes(s) == 0 && TrailingSpaceBytes(s) == 0
    ensures TrimSpace(s) == s
  {
  }

  /** Trimming leaves encoded cursors as they are. */
  lemma TrimKeepsCursor(value: Text)
    ensures TrimSpace(EncodeCursor(value)) == EncodeCursor(value)
  {
    EncodeInAlphabet(value);
    var c := EncodeCursor(value);
    if c != [] {
      assert InAlphabet(c[0]) && InAlphabet(c[|c| - 1]);
      assert SpaceBytes(c) == 0;
      assert TrailingSpaceBytes(c) == 0;
    }
  }

  /** Everything that is not "backward" up to case and surrounding space means forward. */
  predicate IsForward(direction: Text) {
    ToLower(TrimSpace(direction)) != BACKWARD
  }

  /** The page size in force for a requested limit. */
  function PageSize(limit: int): nat {
    if limit <= 0 || limit > MAX_LIMIT then DEFAULT_LIMIT else limit
  }

  lemma NormalRequest(value: Text, limit: int, direction: Text)
    requires IsForward(direction)
    ensures NormalizeParams(Params(EncodeCursor(value), limit, direction))
         == Params(EncodeCursor(value), PageSize(limit), FORWARD)
  {
    TrimKeepsCursor(value);
  }

  // ----- Pages -----

  datatype Page<T> = Page(
    items: seq<T>, total: int, cursor: Text, nextCursor: Text, prevCursor: Text, hasNext: bool, hasPrev: bool)

  /** A PagingFunc: items from a cursor on, at most so many, in a direction; or an error. */
  type Fetch<!T, !E> = (Text, int, Text) -> Result<(seq<T>, int), E>

  /** The items from the last to the first. */
  function Reverse<T>(s: seq<T>): seq<T> {
    seq(|s|, i requires 0 <= i < |s| => s[|s| - 1 - i])
  }

  /** Lines 107-109: reversal in place. */
  method ReverseInPlace<T>(a: array<T>)
    modifies a
    ensures a[..] == Reverse(old(a[..]))
  {
    ghost var was := a[..];
    var i, j := 0, a.Length - 1;
    while i < j
      invariant 0 <= i <= j + 2 && i + j == a.Length - 1
      invariant forall k :: 0 <= k < i || j < k < a.Length ==> a[k] == was[a.Length - 1 - k]
      invariant forall k :: i <= k <= j ==> a[k] == was[k]
    {
      a[i], a[j] := a[j], a[i];
      i, j := i + 1, j - 1;
    }
    assert forall k :: 0 <= k < a.Length ==> a[k] == Reverse(was)[k];
  }

  /** What Paginate returns for the fetched items. */
  function PageOf<T>(p: Params, fetched: seq<T>, total: int, key: T -> Text): Page<T>
    requires p.limit >= 1
  {
    var more := |fetched| > p.limit;
    var items := if more then fetched[..p.limit] else fetched;
    var first := if items == [] then [] else EncodeCursor(key(items[0]));
    var last := if items == [] then [] else EncodeCursor(key(items[|items| - 1]));
    if p.direction == BACKWARD then
      Page(Reverse(items), total, p.cursor, if more then last else [], if p.cursor != [] then first else [],
           p.cursor != [], more)
    else
      Page(items, total, p.cursor, if more then last else [], if p.cursor != [] then first else [],
           more, p.cursor != [])
  }

  function Paged<T, E>(params: Params, fetch: Fetch<T, E>, key: T -> Text): Result<Page<T>, E> {
    PagedFor(NormalizeParams(params), fetch, key)
  }

  function PagedFor<T, E>(p: Params, fetch: Fetch<T, E>, key: T -> Text): Result<Page<T>, E>
    requires p.limit >= 1
  {
    match fetch(p.cursor, p.limit + 1, p.direction)
    case Failure(e) => Failure(e)
    case Success((items, total)) => Success(PageOf(p, items, total, key))
  }

  method Reversed<T>(items: seq<T>) returns (r: seq<T>)
    ensures r == Reverse(items)
  {
    var buffer := new T[|items|](i requires 0 <= i < |items| => items[i]);
    assert buffer[..] == items;
    ReverseInPlace(buffer);
    r := buffer[..];
  }

  /** A cursor that decodes to the value if it is called for, and is empty otherwise. */
  ghost predicate IsCursorOf(cursor: Text, calledFor: bool, value: Text) {
    if calledFor then cursor == EncodeCursor(value) && Decode(cursor) == Some(value) else cursor == []
  }

  /**
   * What a page shows of the fetched items, field by field: the first `limit` of them, in
   * reverse order when paging backward. More than `limit` fetched items mean that there are
   * more in the direction of paging, a cursor that there are some in the other direction.
   */
  ghost predicate IsPageFor<T>(cursor: Text, limit: nat, forward: bool, fetched: seq<T>, total: int, key: T -> Text,
                               page: Page<T>)
  {
    var n := if |fetched| > limit then limit else |fetched|;
    && page.total == total && page.cursor == cursor && |page.items| == n
    && (forall k :: 0 <= k < n ==> page.items[k] == if forward then fetched[k] else fetched[n - 1 - k])
    && (page.hasNext <==> if forward then |fetched| > limit else cursor != [])
    && (page.hasPrev <==> if forward then cursor != [] else |fetched| > limit)
    && IsCursorOf(page.nextCursor, n > 0 && |fetched| > limit, if n > 0 then key(fetched[n - 1]) else [])
    && IsCursorOf(page.prevCursor, n > 0 && cursor != [], if n > 0 then key(fetched[0]) else [])
  }

  lemma EncodedCursor(value: Text)
    ensures IsCursorOf(EncodeCursor(value), true, value)
  {
    EncodeRoundTrip(value);
  }

  lemma ForwardIsPageFor<T>(p: Params, fetched: seq<T>, total: int, key: T -> Text)
    requires p.limit >= 1 && p.direction == FORWARD
    ensures IsPageFor(p.cursor, p.limit, true, fetched, total, key, PageOf(p, fetched, total, key))
  {
    var n := if |fetched| > p.limit then p.limit else |fetched|;
    if n > 0 {
      EncodedCursor(key(fetched[0]));
      EncodedCursor(key(fetched[n - 1]));
    }
  }

  lemma BackwardIsPageFor<T>(p: Params, fetched: seq<T>, total: int, key: T -> Text)
    requires p.limit >= 1 && p.direction == BACKWARD
    ensures IsPageFor(p.cursor, p.limit, false, fetched, total, key, PageOf(p, fetched, total, key))
  {
    var n := if |fetched| > p.limit then p.limit else |fetched|;
    if n > 0 {
      EncodedCursor(key(fetched[0]));
      EncodedCursor(key(fetched[n - 1]));
    }
  }

  lemma PageOfIsPageFor<T>(p: Params, fetched: seq<T>, total: int, key: T -> Text)
    requires p.limit >= 1 && (p.direction == FORWARD || p.direction == BACKWARD)
    ensures IsPageFor(p.cursor, p.limit, p.direction == FORWARD, fetched, total, key, PageOf(p, fetched, total, key))
  {
    if p.direction == FORWARD {
      ForwardIsPageFor(p, fetched, total, key);
    } else {
      assert |FORWARD| == 7 && |BACKWARD| == 8;
      BackwardIsPageFor(p, fetched, total, key);
    }
  }

  /** `r` is what one fetch with these parameters comes to. */
  ghost predicate IsResult<T, E>(p: Params, fetched: Result<(seq<T>, int), E>, key: T -> Text, r: Result<Page<T>, E>)
    requires p.limit >= 0
  {
    match fetched
    case Failure(e) => r == Failure(e)
    case Success((items, total)) =>
      r.Success? && IsPageFor(p.cursor, p.limit, p.direction == FORWARD, items, total, key, r.value)
  }

  /** Lines 78-123. */
  method BuildPage<T>(p: Params, fetched: seq<T>, total: int, key: T -> Text) returns (page: Page<T>)
    requires p.limit >= 1 && (p.direction == FORWARD || p.direction == BACKWARD)
    ensures page == PageOf(p, fetched, total, key)
    ensures IsPageFor(p.cursor, p.limit, p.direction == FORWARD, fetched, total, key, page)
  {
    PageOfIsPageFor(p, fetched, total, key);
    var items := fetched;
    var hasMore, hasCursor := |items| > p.limit, p.cursor != [];
    var hasNext, hasPrev := hasMore, hasCursor;
    if p.direction == BACKWARD {
      hasNext, hasPrev := hasCursor, hasMore;
    }
    if hasMore {
      items := items[..p.limit];
    }
    var nextCursor: Text, prevCursor: Text := [], [];
    if |items| > 0 {
      if p.direction == FORWARD {
        if hasNext {
          nextCursor := EncodeCursor(key(items[|items| - 1]));
        }
        if hasPrev {
          prevCursor := EncodeCursor(key(items[0]));
        }
      } else {
        if hasNext {
          prevCursor := EncodeCursor(key(items[0]));
        }
        if hasPrev {
          nextCursor := EncodeCursor(key(items[|items| - 1]));
        }
        items := Reversed(items);
      }
    }
    page := Page(items, total, p.cursor, nextCursor, prevCursor, hasNext, hasPrev);
  }

  /** Paginate. */
  method Paginate<T, E>(params: Params, fetch: Fetch<T, E>, key: T -> Text) returns (r: Result<Page<T>, E>)
    ensures r == Paged(params, fetch, key)
    ensures var p := NormalizeParams(params); IsResult(p, fetch(p.cursor, p.limit + 1, p.direction), key, r)
  {
    var p := NormalizeParams(params);
    r := PaginateFor(p, fetch, key);
  }

  /** Lines 72-123, with normalized parameters. */
  method PaginateFor<T, E>(p: Params, fetch: Fetch<T, E>, key: T -> Text) returns (r: Result<Page<T>, E>)
    requires p.limit >= 1 && (p.direction == FORWARD || p.direction == BACKWARD)
    ensures r == PagedFor(p, fetch, key)
    ensures IsResult(p, fetch(p.cursor, p.limit + 1, p.direction), key, r)
  {
    match fetch(p.cursor, p.limit + 1, p.direction)
    case Failure(e) => r := Failure(e);
    case Success((items, total)) =>
      var page := BuildPage(p, items, total, key);
      r := Success(page);
  }

  // ----- Forward traversal of a store -----

  /** Where an ordered store resumes: at the start, or behind the item that the cursor names. */
  function Position<T>(store: seq<T>, key: T -> Text, cursor: Text): Option<nat> {
    if cursor == [] then Some(0) else Behind(store, key, cursor)
  }

  function Behind<T>(store: seq<T>, key: T -> Text, cursor: Text): Option<nat> {
    if store == [] then None
    else if EncodeCursor(key(store[0])) == cursor then Some(1)
    else
      var rest := Behind(store[1..], key, cursor);
      if rest.None? then None else Some(rest.value + 1)
  }

  function Upto<T>(s: seq<T>, n: int): seq<T> {
    if n < 0 then [] else if |s| <= n then s else s[..n]
  }

  /** A PagingFunc over an ordered store. An unknown cursor is an error; backward paging is not needed here. */
  function StoreFetch<T>(store: seq<T>, key: T -> Text): Fetch<T, string> {
    (cursor, limit, direction) =>
      var from := Position(store, key, cursor);
      if from.None? || from.value > |store| then Failure("unknown cursor")
      else Success((Upto(store[from.value..], limit), |store|))
  }

  /** The item at `i` has a non-empty cursor value that no earlier item has. */
  ghost predicate StandsAlone<T>(store: seq<T>, key: T -> Text, i: nat)
    requires i < |store|
  {
    key(store[i]) != [] && forall j :: 0 <= j < i ==> key(store[j]) != key(store[i])
  }

  /** The cursor of an item leads behind the first item with its value. */
  lemma {:induction false} BehindItem<T>(store: seq<T>, key: T -> Text, i: nat)
    requires i < |store|
    ensures var behind := Behind(store, key, EncodeCursor(key(store[i])));
      && behind.Some? && behind.value <= i + 1
      && (behind.value == i + 1 <==> forall j :: 0 <= j < i ==> key(store[j]) != key(store[i]))
  {
    if i > 0 {
      SameCursor(key(store[0]), key(store[i]));
      BehindItem(store[1..], key, i - 1);
      assert forall j :: 0 < j < i ==> store[j] == store[1..][j - 1];
      assert forall j :: 0 <= j < i - 1 ==> store[1..][j] == store[j + 1];
    }
  }

  lemma SameCursor(a: Text, b: Text)
    ensures EncodeCursor(a) == EncodeCursor(b) <==> a == b
  {
    if EncodeCursor(a) == EncodeCursor(b) {
      EncodeInjective(a, b);
    }
  }

  /** `cursor` is one that EncodeCursor yields, and the store resumes at `from` for it. */
  ghost predicate LeadsTo<T>(store: seq<T>, key: T -> Text, cursor: Text, from: nat) {
    (exists value :: cursor == EncodeCursor(value)) && Position(store, key, cursor) == Some(from) && from <= |store|
  }

  /** Where the page behind the one from `from` on begins. */
  ghost function Jump<T>(store: seq<T>, key: T -> Text, size: nat, from: nat): nat
    requires size >= 1 && from + size <= |store|
  {
    var behind := Position(store, key, EncodeCursor(key(store[from + size - 1])));
    if behind.None? then 0 else behind.value
  }

  lemma JumpLeads<T>(store: seq<T>, key: T -> Text, size: nat, from: nat)
    requires size >= 1 && from + size <= |store|
    ensures LeadsTo(store, key, EncodeCursor(key(store[from + size - 1])), Jump(store, key, size, from))
    ensures Jump(store, key, size, from) <= from + size
    ensures Jump(store, key, size, from) == from + size <==> StandsAlone(store, key, from + size - 1)
  {
    var value := key(store[from + size - 1]);
    EncodeInAlphabet(value);
    BehindItem(store, key, from + size - 1);
  }

  /** A forward page over at least one item more than it holds, if there is one. */
  lemma ForwardPage<T>(p: Params, rest: seq<T>, total: int, key: T -> Text)
    requires p.limit >= 1 && p.direction == FORWARD
    ensures var page := PageOf(p, Upto(rest, p.limit + 1), total, key);
      && page.items == Upto(rest, p.limit)
      && (page.hasNext <==> p.limit < |rest|)
      && (page.hasNext ==> page.nextCursor == EncodeCursor(key(rest[p.limit - 1])))
  {
  }

  /** What a client gets for a cursor. */
  function Serve<T>(store: seq<T>, key: T -> Text, limit: int, direction: Text): Text -> Result<Page<T>, string> {
    cursor => Paged(Params(cursor, limit, direction), StoreFetch(store, key), key)
  }

  /** The page for a cursor that leads to `from`: the next items, and where its NextCursor leads. */
  ghost predicate IsPageAt<T>(store: seq<T>, key: T -> Text, size: nat, from: nat, page: Page<T>)
    requires size >= 1
  {
    && from <= |store|
    && page.items == Upto(store[from..], size)
    && (page.hasNext <==> from + size < |store|)
    && (page.hasNext ==> LeadsTo(store, key, page.nextCursor, Jump(store, key, size, from)))
  }

  ghost predicate Serves<T, E>(serve: Text -> Result<Page<T>, E>, store: seq<T>, key: T -> Text, size: nat)
    requires size >= 1
  {
    forall cursor, from: nat :: ServesAt(serve, store, key, size, cursor, from)
  }

  ghost predicate ServesAt<T, E>(serve: Text -> Result<Page<T>, E>, store: seq<T>, key: T -> Text, size: nat,
                                 cursor: Text, from: nat)
    requires size >= 1
  {
    LeadsTo(store, key, cursor, from) ==>
      serve(cursor).Success? && IsPageAt(store, key, size, from, serve(cursor).value)
  }

  lemma RequestFor<T>(store: seq<T>, key: T -> Text, limit: int, direction: Text, cursor: Text, from: nat)
    requires LeadsTo(store, key, cursor, from) && IsForward(direction)
    ensures NormalizeParams(Params(cursor, limit, direction)) == Params(cursor, PageSize(limit), FORWARD)
  {
    var value :| cursor == EncodeCursor(value);
    NormalRequest(value, limit, direction);
  }

  lemma PageIsAt<T>(store: seq<T>, key: T -> Text, size: nat, cursor: Text, from: nat, page: Page<T>)
    requires size >= 1 && from <= |store|
    requires page == PageOf(Params(cursor, size, FORWARD), Upto(store[from..], size + 1), |store|, key)
    ensures IsPageAt(store, key, size, from, page)
  {
    ForwardPage(Params(cursor, size, FORWARD), store[from..], |store|, key);
    if from + size < |store| {
      JumpLeads(store, key, size, from);
    }
  }

  lemma PagedIs<T>(store: seq<T>, key: T -> Text, size: nat, cursor: Text, from: nat, r: Result<Page<T>, string>)
    requires size >= 1 && LeadsTo(store, key, cursor, from)
    requires r == PagedFor(Params(cursor, size, FORWARD), StoreFetch(store, key), key)
    ensures r.Success? && IsPageAt(store, key, size, from, r.value)
  {
    FetchFor(store, key, cursor, from, size + 1);
    PageIsAt(store, key, size, cursor, from, r.value);
  }

  /** For a cursor that leads to a position the page is the one at that position. */
  lemma PageAt<T>(store: seq<T>, key: T -> Text, limit: int, direction: Text, cursor: Text, from: nat)
    requires LeadsTo(store, key, cursor, from) && IsForward(direction)
    ensures var r := Serve(store, key, limit, direction)(cursor);
      r.Success? && IsPageAt(store, key, PageSize(limit), from, r.value)
  {
    RequestFor(store, key, limit, direction, cursor, from);
    PagedIs(store, key, PageSize(limit), cursor, from, Serve(store, key, limit, direction)(cursor));
  }

  lemma FetchFor<T>(store: seq<T>, key: T -> Text, cursor: Text, from: nat, n: nat)
    requires LeadsTo(store, key, cursor, from)
    ensures StoreFetch(store, key)(cursor, n, FORWARD) == Success((Upto(store[from..], n), |store|))
  {
  }

  lemma StoreServes<T>(store: seq<T>, key: T -> Text, limit: int, direction: Text)
    requires IsForward(direction)
    ensures Serves(Serve(store, key, limit, direction), store, key, PageSize(limit))
  {
    var serve := Serve(store, key, limit, direction);
    forall cursor, from: nat ensures ServesAt(serve, store, key, PageSize(limit), cursor, from) {
      if LeadsTo(store, key, cursor, from) {
        PageAt(store, key, limit, direction, cursor, from);
      }
    }
  }

  /** Following NextCursor until HasNext is false: the pages that a client sees. */
  ghost predicate IsTraversal<T, E>(serve: Text -> Result<Page<T>, E>, cursor: Text, pages: seq<Page<T>>)
    decreases |pages|
  {
    && pages != []
    && serve(cursor) == Success(pages[0])
    && if pages[0].hasNext then IsTraversal(serve, pages[0].nextCursor, pages[1..]) else |pages| == 1
  }

  function AllItems<T>(pages: seq<Page<T>>): seq<T> {
    if pages == [] then [] else pages[0].items + AllItems(pages[1..])
  }

  /** From position `from` on, every item that ends a page stands alone. */
  ghost predicate GoodFrom<T>(store: seq<T>, key: T -> Text, size: nat, from: nat)
    requires size >= 1
    decreases |store| - from
  {
    from + size < |store| ==> StandsAlone(store, key, from + size - 1) && GoodFrom(store, key, size, from + size)
  }

  /** A traversal never leaves out anything behind the position where it starts. */
  lemma {:induction false} TraversalIsLong<T, E>(serve: Text -> Result<Page<T>, E>, store: seq<T>, key: T -> Text,
                                                 size: nat, cursor: Text, from: nat, pages: seq<Page<T>>)
    requires size >= 1 && Serves(serve, store, key, size) && LeadsTo(store, key, cursor, from)
    requires IsTraversal(serve, cursor, pages)
    ensures |AllItems(pages)| >= |store| - from
    decreases |pages|
  {
    assert ServesAt(serve, store, key, size, cursor, from);
    var page := serve(cursor).value;
    if page.hasNext {
      JumpLeads(store, key, size, from);
      TraversalIsLong(serve, store, key, size, page.nextCursor, Jump(store, key, size, from), pages[1..]);
    }
  }

  /** A page followed by `rest` is the rest of the store exactly when `rest` is what is behind the page. */
  lemma PageAndRest<T>(store: seq<T>, from: nat, size: nat, rest: seq<T>)
    requires from + size <= |store|
    ensures Upto(store[from..], size) + rest == store[from..] <==> rest == store[from + size..]
  {
    var items, tail := Upto(store[from..], size), store[from + size..];
    assert store[from..] == items + tail;
    assert (items + rest)[size..] == rest && (items + tail)[size..] == tail;
  }

  /** A traversal shows exactly the rest of the store exactly when the items that end its pages stand alone. */
  lemma {:induction false} CoversFromIff<T, E>(serve: Text -> Result<Page<T>, E>, store: seq<T>, key: T -> Text,
                                               size: nat, cursor: Text, from: nat, pages: seq<Page<T>>)
    requires size >= 1 && Serves(serve, store, key, size) && LeadsTo(store, key, cursor, from)
    requires IsTraversal(serve, cursor, pages)
    ensures AllItems(pages) == store[from..] <==> GoodFrom(store, key, size, from)
    decreases |pages|
  {
    assert ServesAt(serve, store, key, size, cursor, from);
    var page, rest := serve(cursor).value, pages[1..];
    if page.hasNext {
      var next := Jump(store, key, size, from);
      JumpLeads(store, key, size, from);
      TraversalIsLong(serve, store, key, size, page.nextCursor, next, rest);
      if next == from + size {
        CoversFromIff(serve, store, key, size, page.nextCursor, next, rest);
      }
      OnePageMore(store, key, size, from, AllItems(rest));
    } else {
      assert AllItems(rest) == [];
    }
  }

  /** If `rest` is what the traversal shows behind the page at `from`. */
  lemma OnePageMore<T>(store: seq<T>, key: T -> Text, size: nat, from: nat, rest: seq<T>)
    requires size >= 1 && from + size < |store| && |rest| >= |store| - Jump(store, key, size, from)
    requires Jump(store, key, size, from) == from + size ==>
      (rest == store[from + size..] <==> GoodFrom(store, key, size, from + size))
    ensures Upto(store[from..], size) + rest == store[from..] <==> GoodFrom(store, key, size, from)
  {
    JumpLeads(store, key, size, from);
    PageAndRest(store, from, size, rest);
    if Jump(store, key, size, from) != from + size {
      assert |rest| > |store[from + size..]|;
    }
  }

  /** All pages but the last are full, and HasNext is false on the last one only. */
  lemma {:induction false} TraversalShape<T, E>(serve: Text -> Result<Page<T>, E>, store: seq<T>, key: T -> Text,
                                                size: nat, cursor: Text, from: nat, pages: seq<Page<T>>)
    requires size >= 1 && Serves(serve, store, key, size) && LeadsTo(store, key, cursor, from)
    requires IsTraversal(serve, cursor, pages)
    ensures forall i :: 0 <= i < |pages| ==> (pages[i].hasNext <==> i < |pages| - 1)
    ensures forall i :: 0 <= i < |pages| - 1 ==> |pages[i].items| == size
    decreases |pages|
  {
    assert ServesAt(serve, store, key, size, cursor, from);
    var page := serve(cursor).value;
    if page.hasNext {
      var rest := pages[1..];
      TraversalShape(serve, store, key, size, page.nextCursor, Jump(store, key, size, from), rest);
      assert forall i :: 0 < i < |pages| ==> pages[i] == rest[i - 1];
    }
  }

  lemma {:induction false} EndsFrom<T, E>(serve: Text -> Result<Page<T>, E>, store: seq<T>, key: T -> Text,
                                          size: nat, cursor: Text, from: nat)
    returns (pages: seq<Page<T>>)
    requires size >= 1 && Serves(serve, store, key, size) && LeadsTo(store, key, cursor, from)
    requires GoodFrom(store, key, size, from)
    ensures IsTraversal(serve, cursor, pages)
    decreases |store| - from
  {
    assert ServesAt(serve, store, key, size, cursor, from);
    var page := serve(cursor).value;
    if page.hasNext {
      JumpLeads(store, key, size, from);
      var rest := EndsFrom(serve, store, key, size, page.nextCursor, from + size);
      pages := [page] + rest;
      assert pages[1..] == rest;
    } else {
      pages := [page];
    }
  }

  // ----- Which stores a traversal shows exactly -----

  /** The item at `i` ends a page and is not the last one. */
  predicate EndsPage(size: nat, total: nat, i: nat)
    requires size >= 1
  {
    i + 1 < total && (i + 1) % size == 0
  }

  /** Every item that ends a page has a non-empty cursor value that no earlier item has. */
  ghost predicate PageEndsStandAlone<T>(store: seq<T>, key: T -> Text, size: nat)
    requires size >= 1
  {
    forall i: nat :: EndsPage(size, |store|, i) ==> StandsAlone(store, key, i)
  }

  lemma OnlyPageEnd(size: nat, q: nat, from: nat, i: nat)
    requires size >= 1 && from == q * size && from <= i < from + size
    ensures (i + 1) % size == 0 <==> i == from + size - 1
  {
    if i == from + size - 1 {
      assert i + 1 == (q + 1) * size + 0;
      RemainderIs(q + 1, size, 0);
    } else {
      RemainderIs(q, size, i + 1 - from);
    }
  }

  /** From position `from` on, all that ends a page stands alone. */
  ghost predicate EndsStandAlone<T>(store: seq<T>, key: T -> Text, size: nat, from: nat)
    requires size >= 1
  {
    forall i: nat :: from <= i && EndsPage(size, |store|, i) ==> StandsAlone(store, key, i)
  }

  lemma OnePageOn<T>(store: seq<T>, key: T -> Text, size: nat, q: nat, from: nat)
    requires size >= 1 && from == q * size
    ensures EndsStandAlone(store, key, size, from) <==>
      (from + size < |store| ==>
        StandsAlone(store, key, from + size - 1) && EndsStandAlone(store, key, size, from + size))
  {
    OnlyPageEnd(size, q, from, from + size - 1);
    forall i: nat | from <= i < from + size && EndsPage(size, |store|, i) ensures i == from + size - 1 {
      OnlyPageEnd(size, q, from, i);
    }
    assert from + size < |store| ==> EndsPage(size, |store|, from + size - 1);
  }

  lemma {:induction false} GoodFromIff<T>(store: seq<T>, key: T -> Text, size: nat, q: nat, from: nat)
    requires size >= 1 && from == q * size
    ensures GoodFrom(store, key, size, from) <==> EndsStandAlone(store, key, size, from)
    decreases |store| - from
  {
    OnePageOn(store, key, size, q, from);
    if from + size < |store| {
      assert (q + 1) * size == from + size;
      GoodFromIff(store, key, size, q + 1, from + size);
    }
  }

  lemma EmptyCursorLeads<T>(store: seq<T>, key: T -> Text)
    ensures LeadsTo(store, key, [], 0)
  {
    assert EncodeCursor([]) == [];
  }

  lemma GoodStore<T>(store: seq<T>, key: T -> Text, size: nat)
    requires size >= 1
    ensures GoodFrom(store, key, size, 0) <==> PageEndsStandAlone(store, key, size)
  {
    GoodFromIff(store, key, size, 0, 0);
  }

  /**
   * A traversal that starts with the empty cursor shows every item of the store exactly once
   * and in order if and only if every item that ends a page has a non-empty cursor value
   * that no earlier item has. In any case all pages but the last are full and HasNext is
   * false on the last page only.
   */
  lemma TraversalCoversIff<T>(store: seq<T>, key: T -> Text, limit: int, direction: Text, pages: seq<Page<T>>)
    requires IsForward(direction) && IsTraversal(Serve(store, key, limit, direction), [], pages)
    ensures AllItems(pages) == store <==> PageEndsStandAlone(store, key, PageSize(limit))
    ensures forall i :: 0 <= i < |pages| ==> (pages[i].hasNext <==> i < |pages| - 1)
    ensures forall i :: 0 <= i < |pages| - 1 ==> |pages[i].items| == PageSize(limit)
  {
    var serve, size := Serve(store, key, limit, direction), PageSize(limit);
    StoreServes(store, key, limit, direction);
    EmptyCursorLeads(store, key);
    CoversFromIff(serve, store, key, size, [], 0, pages);
    TraversalShape(serve, store, key, size, [], 0, pages);
    GoodStore(store, key, size);
    assert store[0..] == store;
  }

  /** And then following NextCursor comes to an end. */
  lemma TraversalEnds<T>(store: seq<T>, key: T -> Text, limit: int, direction: Text) returns (pages: seq<Page<T>>)
    requires IsForward(direction) && PageEndsStandAlone(store, key, PageSize(limit))
    ensures IsTraversal(Serve(store, key, limit, direction), [], pages) && AllItems(pages) == store
  {
    var serve, size := Serve(store, key, limit, direction), PageSize(limit);
    StoreServes(store, key, limit, direction);
    EmptyCursorLeads(store, key);
    GoodStore(store, key, size);
    pages := EndsFrom(serve, store, key, size, [], 0);
    TraversalCoversIff(store, key, limit, direction, pages);
  }

  /** Distinct, non-empty cursor values. */
  ghost predicate DistinctKeys<T>(store: seq<T>, key: T -> Text) {
    && (forall i :: 0 <= i < |store| ==> key(store[i]) != [])
    && (forall i, j :: 0 <= i < j < |store| ==> key(store[i]) != key(store[j]))
  }

  /** With distinct, non-empty cursor values every traversal shows the whole store, for any page size. */
  lemma TraversalCovers<T>(store: seq<T>, key: T -> Text, limit: int, direction: Text, pages: seq<Page<T>>)
    requires DistinctKeys(store, key) && IsForward(direction)
    requires IsTraversal(Serve(store, key, limit, direction), [], pages)
    ensures AllItems(pages) == store
    ensures forall i :: 0 <= i < |pages| ==> (pages[i].hasNext <==> i < |pages| - 1)
    ensures forall i :: 0 <= i < |pages| - 1 ==> |pages[i].items| == PageSize(limit)
  {
    TraversalCoversIff(store, key, limit, direction, pages);
  }

  /**
   * Why the cursor values must not be empty: if the item that ends a page has an empty
   * one, the page announces a successor and its NextCursor leads back to the first page.
   */
  lemma EmptyValueRestarts<T>(p: Params, fetched: seq<T>, total: int, key: T -> Text)
    requires p.direction == FORWARD && 1 <= p.limit < |fetched|
    ensures var page := PageOf(p, fetched, total, key);
      page.hasNext && (page.nextCursor == [] <==> key(fetched[p.limit - 1]) == [])
  {
    EncodeInAlphabet(key(fetched[p.limit - 1]));
  }
}
