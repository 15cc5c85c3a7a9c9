/** UTF-8 as sequences of bytes (section 4 of RFC 3629). */
module Utf8 {
  type Byte = b: int | 0 <= b < 0x100

  type Bytes = seq<Byte>

  predicate Tail(b: Byte) {
    0x80 <= b <= 0xBF
  }

  /** The second byte of a three-byte encoding: no overlong forms, no surrogates. */
  predicate SecondOfThree(first: Byte, b: Byte) {
    if first == 0xE0 then 0xA0 <= b <= 0xBF else if first == 0xED then 0x80 <= b <= 0x9F else Tail(b)
  }

  predicate SecondOfFour(first: Byte, b: Byte) {
    if first == 0xF0 then 0x90 <= b <= 0xBF else if first == 0xF4 then 0x80 <= b <= 0x8F else Tail(b)
  }

  /** The length of the encoded character a string starts with; 0 if it starts with none. */
  function RuneLength(s: Bytes): (n: nat)
    ensures n <= |s| && n <= 4
  {
    if s == [] then 0
    else if s[0] < 0x80 then 1
    else if 0xC2 <= s[0] <= 0xDF then if |s| >= 2 && Tail(s[1]) then 2 else 0
    else if 0xE0 <= s[0] <= 0xEF then if |s| >= 3 && SecondOfThree(s[0], s[1]) && Tail(s[2]) then 3 else 0
    else if 0xF0 <= s[0] <= 0xF4 then
      if |s| >= 4 && SecondOfFour(s[0], s[1]) && Tail(s[2]) && Tail(s[3]) then 4 else 0
    else 0
  }

  /** Unicode characters: no surrogates. */
  predicate IsScalar(c: int) {
    0 <= c < 0xD800 || 0xE000 <= c <= 0x10FFFF
  }

  /** The table of section 3 of RFC 3629. */
  function Encode(c: int): (b: Bytes)
    requires IsScalar(c)
    ensures 1 <= |b| <= 4
  {
    if c < 0x80 then [c]
    else if c < 0x800 then [0xC0 + c / 0x40, 0x80 + c % 0x40]
    else if c < 0x10000 then [0xE0 + c / 0x1000, 0x80 + c / 0x40 % 0x40, 0x80 + c % 0x40]
    else [0xF0 + c / 0x40000, 0x80 + c / 0x1000 % 0x40, 0x80 + c / 0x40 % 0x40, 0x80 + c % 0x40]
  }

  /** The encoding of a character is recognised whatever follows it ... */
  lemma EncodedIsRune(c: int, rest: Bytes)
    requires IsScalar(c)
    ensures RuneLength(Encode(c) + rest) == |Encode(c)|
  {
    var s := Encode(c) + rest;
    assert forall i :: 0 <= i < |Encode(c)| ==> s[i] == Encode(c)[i];
  }

  /** ... and nothing else is. */
  lemma RuneIsEncoded(s: Bytes) returns (c: int)
    requires RuneLength(s) > 0
    ensures IsScalar(c) && s[..RuneLength(s)] == Encode(c)
  {
    var n := RuneLength(s);
    var x: int, y: int, z: int, w: int := s[0], 0, 0, 0;
    if n >= 2 {
      y := s[1];
    }
    if n >= 3 {
      z := s[2];
    }
    if n == 4 {
      w := s[3];
    }
    if n == 1 {
      c := x;
    } else if n == 2 {
      c := 0x40 * (x - 0xC0) + (y - 0x80);
      assert s[..2] == [x, y];
    } else if n == 3 {
      c := EncodedAsThree(x, y, z);
      assert s[..3] == [x, y, z];
    } else {
      c := EncodedAsFour(x, y, z, w);
      assert s[..4] == [x, y, z, w];
    }
  }

  lemma EncodedAsThree(x: Byte, y: Byte, z: Byte) returns (c: int)
    requires 0xE0 <= x <= 0xEF && SecondOfThree(x, y) && Tail(z)
    ensures IsScalar(c) && Encode(c) == [x, y, z]
  {
    var i: int, j: int, k: int := x, y, z;
    c := 0x1000 * (i - 0xE0) + 0x40 * (j - 0x80) + (k - 0x80);
    assert c / 0x1000 == i - 0xE0;
    assert c / 0x40 == 0x40 * (i - 0xE0) + (j - 0x80);
  }

  lemma EncodedAsFour(x: Byte, y: Byte, z: Byte, w: Byte) returns (c: int)
    requires 0xF0 <= x <= 0xF4 && SecondOfFour(x, y) && Tail(z) && Tail(w)
    ensures IsScalar(c) && Encode(c) == [x, y, z, w]
  {
    var i: int, j: int, k: int, l: int := x, y, z, w;
    c := 0x40000 * (i - 0xF0) + 0x1000 * (j - 0x80) + 0x40 * (k - 0x80) + (l - 0x80);
    assert c / 0x40000 == i - 0xF0;
    assert c / 0x1000 == 0x40 * (i - 0xF0) + (j - 0x80);
    assert c / 0x40 == 0x1000 * (i - 0xF0) + 0x40 * (j - 0x80) + (k - 0x80);
  }

  /** utf8.ValidString. */
  predicate Valid(s: Bytes)
    decreases |s|
  {
    s == [] || (RuneLength(s) > 0 && Valid(s[RuneLength(s)..]))
  }

  /** Characters are self-delimiting: what follows a valid string is judged on its own. */
  lemma {:induction false} ValidConcat(a: Bytes, b: Bytes)
    requires Valid(a)
    ensures Valid(a + b) <==> Valid(b)
    decreases |a|
  {
    if a == [] {
      assert a + b == b;
    } else {
      var n := RuneLength(a);
      assert RuneLength(a + b) == n;
      assert (a + b)[n..] == a[n..] + b;
      ValidConcat(a[n..], b);
    }
  }

  lemma RuneIsValid(s: Bytes)
    requires RuneLength(s) > 0
    ensures Valid(s[..RuneLength(s)]) && RuneLength(s[..RuneLength(s)]) == RuneLength(s)
  {
    var c := s[..RuneLength(s)];
    assert c[RuneLength(c)..] == [];
  }

  /** Every cut of a valid string is at most three bytes past a character boundary. */
  lemma {:induction false} BoundaryNear(s: Bytes, m: nat) returns (cut: nat)
    requires Valid(s) && m <= |s|
    ensures cut <= m <= cut + 3 && Valid(s[..cut])
    decreases |s|
  {
    var n := RuneLength(s);
    if m < n || s == [] {
      cut := 0;
    } else {
      var rest := BoundaryNear(s[n..], m - n);
      cut := n + rest;
      assert s[..cut] == s[..n] + s[n..][..rest];
      RuneIsValid(s);
      ValidConcat(s[..n], s[n..][..rest]);
    }
  }

  /** The bytes of an ASCII string constant. */
  function Ascii(s: string): (b: Bytes)
    ensures |b| == |s| && forall i :: 0 <= i < |b| ==> b[i] < 0x80
  {
    seq(|s|, i requires 0 <= i < |s| => if s[i] as int < 0x80 then s[i] as int else 0x3F)
  }

  function Concat(parts: seq<Bytes>): Bytes {
    if parts == [] then [] else parts[0] + Concat(parts[1..])
  }

  lemma {:induction false} ConcatIsValid(parts: seq<Bytes>)
    requires forall p :: p in parts ==> Valid(p)
    ensures Valid(Concat(parts))
  {
    hide Valid;
    if parts == [] {
      AsciiIsValid([]);
    } else {
      ConcatIsValid(parts[1..]);
      ValidConcat(parts[0], Concat(parts[1..]));
    }
  }

  lemma ConcatStep(parts: seq<Bytes>)
    requires parts != []
    ensures Concat(parts) == parts[0] + Concat(parts[1..])
  {
  }

  lemma Associate(a: Bytes, b: Bytes, c: Bytes)
    ensures a + (b + c) == a + b + c
  {
  }

  lemma {:induction false} ConcatAppend(a: seq<Bytes>, b: seq<Bytes>)
    ensures Concat(a + b) == Concat(a) + Concat(b)
  {
    if a == [] {
      assert a + b == b;
    } else {
      hide *;
      ConcatAppend(a[1..], b);
      assert (a + b)[1..] == a[1..] + b;
      ConcatStep(a + b);
      ConcatStep(a);
      Associate(a[0], Concat(a[1..]), Concat(b));
    }
  }

  lemma {:induction false} AsciiIsValid(b: Bytes)
    requires forall i :: 0 <= i < |b| ==> b[i] < 0x80
    ensures Valid(b)
    decreases |b|
  {
    if b != [] {
      AsciiIsValid(b[1..]);
    }
  }
}

/** Telegram alerts: cleaning, truncating, formatting and batching
    (internal/telegramalerts/service.go). Strings are bytes, as Go counts them. */
module Alerts {
  import opened Prelude
  import opened Utf8

  // ---- truncation ----

  /** The longest valid prefix of at most `limit` bytes. */
  function LongestValid(s: Bytes, limit: nat): (cut: nat)
    requires limit <= |s|
    ensures cut <= limit && (cut == 0 || Valid(s[..cut]))
    ensures forall k :: cut < k <= limit ==> !Valid(s[..k])
  {
    if limit == 0 || Valid(s[..limit]) then limit else LongestValid(s, limit - 1)
  }

  function Truncated(s: Bytes, max: nat): Bytes {
    if |s| <= max then s
    else if max < 4 then s[..max]
    else s[..LongestValid(s, max - 3)] + Ascii("...")
  }

  /** truncateBytes. */
  method TruncateBytes(value: Bytes, maxBytes: nat) returns (r: Bytes)
    ensures r == Truncated(value, maxBytes)
  {
    if |value| <= maxBytes {
      return value;
    }
    if maxBytes < 4 {
      return value[..maxBytes];
    }
    var limit := maxBytes - 3;
    while limit > 0 && !Valid(value[..limit])
      invariant limit <= maxBytes - 3
      invariant LongestValid(value, maxBytes - 3) == LongestValid(value, limit)
    {
      limit := limit - 1;
    }
    return value[..limit] + Ascii("...");
  }

  /** Truncating never exceeds the bound; a valid string stays valid and loses at most three bytes more
      than the dots need. */
  lemma {:induction false} TruncationIsTight(s: Bytes, max: nat)
    ensures |Truncated(s, max)| <= max
    ensures max >= 4 && Valid(s) ==> Valid(Truncated(s, max))
    ensures max >= 4 && Valid(s) && |s| > max ==>
      exists k: nat :: max - 6 <= k <= max - 3 && Truncated(s, max) == s[..k] + Ascii("...")
  {
    if |s| > max && max >= 4 {
      var k := LongestValid(s, max - 3);
      if Valid(s) {
        var cut := BoundaryNear(s, max - 3);
        assert cut <= k;
        assert Valid(s[..k]) by {
          if k == 0 {
            assert s[..0] == [];
          }
        }
        AsciiIsValid(Ascii("..."));
        ValidConcat(s[..k], Ascii("..."));
      }
    }
  }

  // ---- cleaning ----

  /** unicode.IsControl of the character a string starts with. */
  predicate StartsWithControl(s: Bytes) {
    s != [] && (s[0] < 0x20 || s[0] == 0x7F || (s[0] == 0xC2 && |s| >= 2 && 0x80 <= s[1] <= 0x9F))
  }

  /** The control characters are U+0000 to U+001F and U+007F to U+009F. */
  lemma ControlExactly(c: int, rest: Bytes)
    requires IsScalar(c)
    ensures StartsWithControl(Encode(c) + rest) <==> c <= 0x1F || 0x7F <= c <= 0x9F
  {
    var s := Encode(c) + rest;
    assert forall i :: 0 <= i < |Encode(c)| ==> s[i] == Encode(c)[i];
  }

  predicate StartsWithLayout(s: Bytes) {
    s != [] && s[0] in {0x09, 0x0A, 0x0D}
  }

  /** U+FFFD, which strings.Map writes for a byte that is no character. */
  const REPLACEMENT: Bytes := [0xEF, 0xBF, 0xBD]

  /** The strings.Map of cleanText: control characters but tab and line breaks are dropped, and bytes that
      are no characters replaced. */
  function Cleaned(s: Bytes): (r: Bytes)
    decreases |s|
  {
    if s == [] then []
    else
      var n := RuneLength(s);
      if n == 0 then REPLACEMENT + Cleaned(s[1..])
      else if StartsWithControl(s) && !StartsWithLayout(s) then Cleaned(s[n..])
      else s[..n] + Cleaned(s[n..])
  }

  /** No control characters but tab and line breaks. */
  predicate Printable(s: Bytes)
    decreases |s|
  {
    s == [] || (RuneLength(s) > 0 && (StartsWithControl(s) ==> StartsWithLayout(s)) && Printable(s[RuneLength(s)..]))
  }

  /** Cleaning yields valid printable text, and changes exactly the text that was not. */
  lemma {:induction false} CleanedIsPrintable(s: Bytes)
    ensures Valid(Cleaned(s)) && Printable(Cleaned(s))
    ensures Cleaned(s) == s <==> Printable(s)
    decreases |s|
  {
    if s != [] {
      var n := RuneLength(s);
      var rest := s[if n == 0 then 1 else n..];
      CleanedIsPrintable(rest);
      if n == 0 {
        PrintableRune(REPLACEMENT, Cleaned(rest));
        assert RuneLength(Cleaned(s)) == 3;
      } else if StartsWithControl(s) && !StartsWithLayout(s) {
        CleanedOfControl(s, n);
      } else {
        RuneIsValid(s);
        PrintableRune(s[..n], Cleaned(rest));
        assert s == s[..n] + rest;
        assert (s[..n] + Cleaned(rest))[n..] == Cleaned(rest);
      }
    }
  }

  lemma PrintableRune(c: Bytes, rest: Bytes)
    requires c != [] && RuneLength(c) == |c| && (StartsWithControl(c) ==> StartsWithLayout(c))
    requires Valid(rest) && Printable(rest)
    ensures Valid(c + rest) && Printable(c + rest)
  {
    assert RuneLength(c + rest) == |c|;
    assert (c + rest)[|c|..] == rest;
  }

  /** Text that starts with a control character is not printable, so cleaning has changed it. */
  lemma CleanedOfControl(s: Bytes, n: nat)
    requires n == RuneLength(s) > 0 && StartsWithControl(s) && !StartsWithLayout(s) && Printable(Cleaned(s[n..]))
    ensures Cleaned(s) == Cleaned(s[n..]) && Cleaned(s) != s && !Printable(s)
  {
  }

  lemma FirstCleaned(c: Bytes, b: Bytes)
    requires c != [] && RuneLength(c) == |c|
    ensures RuneLength(c + b) == |c|
    ensures Cleaned(c + b) == (if StartsWithControl(c) && c[0] !in {0x09, 0x0A, 0x0D} then [] else c) + Cleaned(b)
  {
    var s := c + b;
    assert RuneLength(s) == |c| && s[|c|..] == b && s[..|c|] == c;
    assert s[0] == c[0] && (|c| >= 2 ==> s[1] == c[1]);
    hide RuneLength;
  }

  /** Cleaning goes character by character: it drops the control characters but tab and line breaks, keeps all
      others, and replaces each byte that belongs to none. */
  lemma {:induction false} CleanedExactly(a: Bytes, c: Bytes, b: Bytes)
    requires Valid(a)
    ensures Cleaned(a + c) == Cleaned(a) + Cleaned(c)
    ensures c != [] && RuneLength(c) == |c| ==>
      Cleaned(c + b) == (if StartsWithControl(c) && c[0] !in {0x09, 0x0A, 0x0D} then [] else c) + Cleaned(b)
    ensures |c| == 1 && RuneLength(c + b) == 0 ==> Cleaned(c + b) == [0xEF, 0xBF, 0xBD] + Cleaned(b)
    decreases |a|
  {
    CleanedAppend(a, c);
    if c != [] && RuneLength(c) == |c| {
      FirstCleaned(c, b);
    }
    hide RuneLength;
    if |c| == 1 {
      assert (c + b)[1..] == b;
    }
  }

  lemma {:induction false} CleanedAppend(a: Bytes, c: Bytes)
    requires Valid(a)
    ensures Cleaned(a + c) == Cleaned(a) + Cleaned(c)
    decreases |a|
  {
    if a == [] {
      assert a + c == c;
    } else {
      hide *;
      var first, rest := TakeRune(a);
      FirstCleaned(first, rest + c);
      FirstCleaned(first, rest);
      Associate(first, rest, c);
      CleanedAppend(rest, c);
    }
  }

  lemma TakeRune(a: Bytes) returns (first: Bytes, rest: Bytes)
    requires Valid(a) && a != []
    ensures a == first + rest && first != [] && RuneLength(first) == |first| && Valid(rest) && |rest| < |a|
  {
    var n := RuneLength(a);
    RuneIsValid(a);
    first, rest := a[..n], a[n..];
  }

  function CleanText(value: Bytes, maxBytes: nat): Bytes {
    Truncated(Cleaned(value), maxBytes)
  }

  lemma CleanTextIsValid(value: Bytes, maxBytes: nat)
    requires maxBytes >= 4
    ensures Valid(CleanText(value, maxBytes)) && |CleanText(value, maxBytes)| <= maxBytes
  {
    CleanedIsPrintable(value);
    TruncationIsTight(Cleaned(value), maxBytes);
  }

  // ---- one event ----

  const MAX_MESSAGE := 3900

  type Attr = (Bytes, Bytes)

  /** An alert event. The map of attributes is listed by ascending key. */
  datatype Event = Event(time: Bytes, level: Bytes, message: Bytes, attrs: seq<Attr>)

  const NEWLINE: Bytes := [0x0A]
  const KNOWN := ["error", "request_id", "method", "route", "status", "path", "panic", "dropped_count"]
  const SENSITIVE := ["password", "token", "authorization", "cookie", "secret", "body"]

  function Lookup(attrs: seq<Attr>, key: Bytes): Bytes {
    if attrs == [] then [] else if attrs[0].0 == key then attrs[0].1 else Lookup(attrs[1..], key)
  }

  /** strings.ToLower as far as ASCII words can tell: besides A-Z only U+0130 and U+212A have ASCII
      lower-case forms. */
  function Lowered(s: Bytes): Bytes
    decreases |s|
  {
    if s == [] then []
    else if 0x41 <= s[0] <= 0x5A then [s[0] + 0x20] + Lowered(s[1..])
    else if |s| >= 2 && s[..2] == [0xC4, 0xB0] then [0x69] + Lowered(s[2..])
    else if |s| >= 3 && s[..3] == [0xE2, 0x84, 0xAA] then [0x6B] + Lowered(s[3..])
    else [s[0]] + Lowered(s[1..])
  }

  predicate OccursAt(s: Bytes, part: Bytes, i: nat) {
    i + |part| <= |s| && s[i..i + |part|] == part
  }

  /** strings.Contains. */
  predicate Contains(s: Bytes, part: Bytes) {
    exists i :: 0 <= i <= |s| && OccursAt(s, part, i)
  }

  predicate SensitiveKey(key: Bytes) {
    exists part :: part in SENSITIVE && Contains(Lowered(key), Ascii(part))
  }

  predicate IsKnown(key: Bytes) {
    exists name :: name in KNOWN && key == Ascii(name)
  }

  predicate IsOther(key: Bytes) {
    !IsKnown(key) && key != Ascii("stack") && !SensitiveKey(key)
  }

  // The pieces formatEvent writes one after the other.

  function HeadParts(e: Event, environment: Bytes): seq<Bytes> {
    [Ascii("[my239 "), CleanText(environment, 80), Ascii("] "), e.level, NEWLINE, e.time, NEWLINE,
     CleanText(e.message, 300)]
  }

  /** appendAlertAttr. */
  function AttrParts(key: Bytes, value: Bytes): seq<Bytes> {
    if value == [] then [] else [NEWLINE, CleanText(key, 120), Ascii(": "), CleanText(value, 900)]
  }

  function KnownParts(attrs: seq<Attr>, names: seq<string>): seq<Bytes> {
    if names == [] then []
    else KnownParts(attrs, names[..|names| - 1]) + NamedParts(attrs, names[|names| - 1])
  }

  function NamedParts(attrs: seq<Attr>, name: string): seq<Bytes> {
    AttrParts(Ascii(name), Lookup(attrs, Ascii(name)))
  }

  function OtherParts(attrs: seq<Attr>): seq<Bytes> {
    if attrs == [] then []
    else
      var last := attrs[|attrs| - 1];
      OtherParts(attrs[..|attrs| - 1]) + if IsOther(last.0) then AttrParts(last.0, last.1) else []
  }

  function StackParts(attrs: seq<Attr>): seq<Bytes> {
    var stack := Lookup(attrs, Ascii("stack"));
    if stack == [] then [] else [NEWLINE + Ascii("stack:") + NEWLINE, CleanText(stack, 1800)]
  }

  function Parts(e: Event, environment: Bytes): seq<Bytes> {
    HeadParts(e, environment) + KnownParts(e.attrs, KNOWN) + OtherParts(e.attrs) + StackParts(e.attrs)
  }

  function Formatted(e: Event, environment: Bytes): Bytes {
    Truncated(Concat(Parts(e, environment)), MAX_MESSAGE)
  }

  /** formatEvent. */
  method FormatEvent(e: Event, environment: Bytes) returns (text: Bytes)
    ensures text == Formatted(e, environment)
    ensures Valid(e.level) && Valid(e.time) ==> Tells(text, e, environment)
  {
    assert MAX_MESSAGE >= 0;
    hide *;
    var b := Concat(HeadParts(e, environment));
    b := WriteKnown(e, environment, b);
    b := WriteOthers(e, environment, b);
    ConcatAppend(HeadParts(e, environment) + KnownParts(e.attrs, KNOWN) + OtherParts(e.attrs), StackParts(e.attrs));
    Named(e, environment);
    text := TruncateBytes(b + Concat(StackParts(e.attrs)), MAX_MESSAGE);
    if Valid(e.level) && Valid(e.time) {
      FormattedTells(e, environment);
    }
  }

  lemma Named(e: Event, environment: Bytes)
    ensures Parts(e, environment) ==
      HeadParts(e, environment) + KnownParts(e.attrs, KNOWN) + OtherParts(e.attrs) + StackParts(e.attrs)
    ensures Formatted(e, environment) == Truncated(Concat(Parts(e, environment)), MAX_MESSAGE)
  {
  }

  method WriteKnown(e: Event, environment: Bytes, before: Bytes) returns (b: Bytes)
    requires before == Concat(HeadParts(e, environment))
    ensures b == Concat(HeadParts(e, environment) + KnownParts(e.attrs, KNOWN))
  {
    hide *;
    b := before;
    ghost var head := HeadParts(e, environment);
    NoKnownParts(e.attrs);
    assert head + [] == head;
    for i := 0 to |KNOWN|
      invariant b == Concat(head + KnownParts(e.attrs, KNOWN[..i]))
    {
      NextKnown(e.attrs, i);
      var more := NamedParts(e.attrs, KNOWN[i]);
      ConcatAppend(head + KnownParts(e.attrs, KNOWN[..i]), more);
      assert head + KnownParts(e.attrs, KNOWN[..i]) + more == head + KnownParts(e.attrs, KNOWN[..i + 1]);
      b := b + Concat(more);
    }
    assert KNOWN[..|KNOWN|] == KNOWN;
  }

  lemma NoKnownParts(attrs: seq<Attr>)
    ensures KnownParts(attrs, KNOWN[..0]) == [] && OtherParts(attrs[..0]) == []
  {
  }

  lemma NextKnown(attrs: seq<Attr>, i: nat)
    requires i < |KNOWN|
    ensures KnownParts(attrs, KNOWN[..i + 1]) == KnownParts(attrs, KNOWN[..i]) + NamedParts(attrs, KNOWN[i])
  {
    hide NamedParts;
    assert KNOWN[..i + 1][..i] == KNOWN[..i];
  }

  method WriteOthers(e: Event, environment: Bytes, before: Bytes) returns (b: Bytes)
    requires before == Concat(HeadParts(e, environment) + KnownParts(e.attrs, KNOWN))
    ensures b == Concat(HeadParts(e, environment) + KnownParts(e.attrs, KNOWN) + OtherParts(e.attrs))
  {
    hide *;
    b := before;
    ghost var head := HeadParts(e, environment) + KnownParts(e.attrs, KNOWN);
    NoKnownParts(e.attrs);
    assert head + [] == head;
    for i := 0 to |e.attrs|
      invariant b == Concat(head + OtherParts(e.attrs[..i]))
    {
      NextOther(e.attrs, i);
      if IsOther(e.attrs[i].0) {
        var more := AttrParts(e.attrs[i].0, e.attrs[i].1);
        ConcatAppend(head + OtherParts(e.attrs[..i]), more);
        assert head + OtherParts(e.attrs[..i]) + more == head + OtherParts(e.attrs[..i + 1]);
        b := b + Concat(more);
      }
    }
    assert e.attrs[..|e.attrs|] == e.attrs;
  }

  lemma NextOther(attrs: seq<Attr>, i: nat)
    requires i < |attrs|
    ensures OtherParts(attrs[..i + 1]) ==
      if IsOther(attrs[i].0) then OtherParts(attrs[..i]) + AttrParts(attrs[i].0, attrs[i].1) else OtherParts(attrs[..i])
  {
    hide IsOther, AttrParts;
    assert attrs[..i + 1][..i] == attrs[..i];
  }

  // ---- every text can be sent ----

  predicate AllValid(parts: seq<Bytes>) {
    forall p :: p in parts ==> Valid(p)
  }

  lemma AttrPartsAreValid(key: Bytes, value: Bytes)
    ensures AllValid(AttrParts(key, value))
  {
    CleanTextIsValid(key, 120);
    CleanTextIsValid(value, 900);
    AsciiIsValid(NEWLINE);
    AsciiIsValid(Ascii(": "));
    hide CleanText, Valid;
  }

  lemma {:induction false} KnownPartsAreValid(attrs: seq<Attr>, names: seq<string>)
    ensures AllValid(KnownParts(attrs, names))
    decreases |names|
  {
    hide AttrParts, Lookup, Valid;
    if names != [] {
      KnownPartsAreValid(attrs, names[..|names| - 1]);
      AttrPartsAreValid(Ascii(names[|names| - 1]), Lookup(attrs, Ascii(names[|names| - 1])));
    }
  }

  lemma {:induction false} OtherPartsAreValid(attrs: seq<Attr>)
    ensures AllValid(OtherParts(attrs))
  {
    hide AttrParts, IsOther, Valid;
    if attrs != [] {
      OtherPartsAreValid(attrs[..|attrs| - 1]);
      AttrPartsAreValid(attrs[|attrs| - 1].0, attrs[|attrs| - 1].1);
    }
  }

  lemma StackPartsAreValid(attrs: seq<Attr>)
    ensures AllValid(StackParts(attrs))
  {
    CleanTextIsValid(Lookup(attrs, Ascii("stack")), 1800);
    AsciiIsValid(NEWLINE + Ascii("stack:") + NEWLINE);
    hide CleanText, Valid, Lookup;
  }

  lemma HeadPartsAreValid(e: Event, environment: Bytes)
    requires Valid(e.level) && Valid(e.time)
    ensures AllValid(HeadParts(e, environment))
  {
    CleanTextIsValid(environment, 80);
    CleanTextIsValid(e.message, 300);
    AsciiIsValid(NEWLINE);
    AsciiIsValid(Ascii("[my239 "));
    AsciiIsValid(Ascii("] "));
    hide CleanText, Valid;
  }

  /** Whatever bytes an event carries, its text is valid, not empty, and short enough to send. */
  lemma FormattedFits(e: Event, environment: Bytes)
    requires Valid(e.level) && Valid(e.time)
    ensures Valid(Formatted(e, environment)) && 0 < |Formatted(e, environment)| <= MAX_MESSAGE
  {
    PartsAreValid(e, environment);
    assert Parts(e, environment)[0] == Ascii("[my239 ");
    hide HeadParts, KnownParts, OtherParts, StackParts, Valid, LongestValid;
    TruncationIsTight(Concat(Parts(e, environment)), MAX_MESSAGE);
  }

  lemma PartsAreValid(e: Event, environment: Bytes)
    requires Valid(e.level) && Valid(e.time)
    ensures Valid(Concat(Parts(e, environment)))
  {
    HeadPartsAreValid(e, environment);
    KnownPartsAreValid(e.attrs, KNOWN);
    OtherPartsAreValid(e.attrs);
    StackPartsAreValid(e.attrs);
    hide HeadParts, KnownParts, OtherParts, StackParts, Valid;
    ConcatIsValid(Parts(e, environment));
  }

  // ---- what the text says ----

  /** The characters whose lower case is this ASCII letter. */
  predicate SpellsLetter(c: Bytes, letter: Byte) {
    (|c| == 1 && (c[0] == letter || (letter >= 0x20 && c[0] == letter - 0x20)))
    || (|c| == 2 && letter == 0x69 && c[0] == 0xC4 && c[1] == 0xB0)
    || (|c| == 3 && letter == 0x6B && c[0] == 0xE2 && c[1] == 0x84 && c[2] == 0xAA)
  }

  /** The string starts with the word in some letter case. */
  predicate StartsSpelled(s: Bytes, word: Bytes)
    decreases |word|
  {
    word == []
    || exists n :: 1 <= n <= 3 && n <= |s| && SpellsLetter(s[..n], word[0]) && StartsSpelled(s[n..], word[1..])
  }

  predicate SpelledIn(s: Bytes, word: Bytes) {
    exists i :: 0 <= i <= |s| && StartsSpelled(s[i..], word)
  }

  predicate LowerWord(word: Bytes) {
    forall i :: 0 <= i < |word| ==> 0x61 <= word[i] <= 0x7A
  }

  /** The bytes of the character Lowered takes next. */
  function Unit(s: Bytes): (n: nat)
    requires s != []
    ensures 1 <= n <= |s|
  {
    if |s| >= 2 && s[..2] == [0xC4, 0xB0] then 2 else if |s| >= 3 && s[..3] == [0xE2, 0x84, 0xAA] then 3 else 1
  }

  lemma LoweredStep(s: Bytes)
    requires s != []
    ensures Lowered(s) == [Lowered(s)[0]] + Lowered(s[Unit(s)..])
    ensures Lowered(s)[0] == if Unit(s) == 2 then 0x69 else if Unit(s) == 3 then 0x6B
                             else if 0x41 <= s[0] <= 0x5A then s[0] + 0x20 else s[0]
  {
    LoweredIs(s);
    hide Lowered, Unit;
  }

  lemma LoweredIs(s: Bytes)
    requires s != []
    ensures Lowered(s) == [if Unit(s) == 2 then 0x69 else if Unit(s) == 3 then 0x6B
                           else if 0x41 <= s[0] <= 0x5A then s[0] + 0x20 else s[0]] + Lowered(s[Unit(s)..])
  {
    UnitIs(s);
  }

  lemma UnitIs(s: Bytes)
    requires s != []
    ensures Unit(s) == 2 <==> |s| >= 2 && s[0] == 0xC4 && s[1] == 0xB0
    ensures Unit(s) == 3 <==> |s| >= 3 && s[0] == 0xE2 && s[1] == 0x84 && s[2] == 0xAA
  {
    if |s| >= 2 && s[0] == 0xC4 && s[1] == 0xB0 {
      assert s[..2] == [0xC4, 0xB0];
    } else if |s| >= 3 && s[0] == 0xE2 && s[1] == 0x84 && s[2] == 0xAA {
      assert s[..3] == [0xE2, 0x84, 0xAA];
    } else {
      assert |s| >= 2 ==> s[..2][0] == s[0] && s[..2][1] == s[1];
      assert |s| >= 3 ==> s[..3][0] == s[0] && s[..3][1] == s[1] && s[..3][2] == s[2];
    }
  }

  lemma SpelledUnit(s: Bytes, letter: Byte, n: nat)
    requires 1 <= n <= 3 && n <= |s| && 0x61 <= letter <= 0x7A
    ensures SpellsLetter(s[..n], letter) <==> n == Unit(s) && Lowered(s)[0] == letter
  {
    LoweredStep(s);
    UnitIs(s);
    hide Lowered, Unit;
    assert forall i :: 0 <= i < n ==> s[..n][i] == s[i];
  }

  lemma {:induction false} PrefixSpelled(s: Bytes, word: Bytes)
    requires LowerWord(word)
    ensures word <= Lowered(s) <==> StartsSpelled(s, word)
    decreases |word|
  {
    if word != [] && s != [] {
      LoweredStep(s);
      var n := Unit(s);
      PrefixSpelled(s[n..], word[1..]);
      UnitIs(s);
      forall k | 1 <= k <= 3 && k <= |s| ensures SpellsLetter(s[..k], word[0]) <==> k == n && Lowered(s)[0] == word[0] {
        SpelledUnit(s, word[0], k);
      }
      hide Lowered, SpellsLetter, Unit;
      assert word == [word[0]] + word[1..];
      assert word <= Lowered(s) <==> word[0] == Lowered(s)[0] && word[1..] <= Lowered(s[n..]) by {
        if word <= Lowered(s) {
          assert Lowered(s)[..|word|][1..] == Lowered(s[n..])[..|word| - 1];
        }
      }
    }
  }

  /** Within a two- or three-byte character no spelling starts. */
  lemma NoSpellingInside(s: Bytes, word: Bytes, i: nat)
    requires s != [] && LowerWord(word) && word != [] && 0 < i < Unit(s)
    ensures !StartsSpelled(s[i..], word)
  {
    assert s[i..][0] == s[i];
    assert s[i] == s[..Unit(s)][i];
    forall n | 1 <= n <= 3 && n <= |s[i..]| ensures s[i..][..n][0] == s[i] {}
  }

  lemma ContainsStep(s: Bytes, c: Byte, part: Bytes)
    requires part != []
    ensures Contains([c] + s, part) <==> part <= [c] + s || Contains(s, part)
  {
    var t := [c] + s;
    if part <= t {
      assert OccursAt(t, part, 0);
    }
    if Contains(s, part) {
      var i :| 0 <= i <= |s| && OccursAt(s, part, i);
      assert t[i + 1..i + 1 + |part|] == s[i..i + |part|];
      assert OccursAt(t, part, i + 1);
    }
    if Contains(t, part) {
      var i :| 0 <= i <= |t| && OccursAt(t, part, i);
      if i > 0 {
        assert t[i..i + |part|] == s[i - 1..i - 1 + |part|];
        assert OccursAt(s, part, i - 1);
      } else {
        assert t[..|part|] == part;
      }
    }
  }

  lemma SpelledFrom(s: Bytes, word: Bytes, n: nat)
    requires n <= |s|
    ensures SpelledIn(s[n..], word) <==> exists i :: n <= i <= |s| && StartsSpelled(s[i..], word)
  {
    hide StartsSpelled;
    if SpelledIn(s[n..], word) {
      var i :| 0 <= i <= |s| - n && StartsSpelled(s[n..][i..], word);
      assert s[n..][i..] == s[n + i..];
    }
    if exists i :: n <= i <= |s| && StartsSpelled(s[i..], word) {
      var i :| n <= i <= |s| && StartsSpelled(s[i..], word);
      assert s[n..][i - n..] == s[i..];
    }
  }

  lemma SpelledStep(s: Bytes, word: Bytes)
    requires s != [] && LowerWord(word) && word != []
    ensures SpelledIn(s, word) <==> StartsSpelled(s, word) || SpelledIn(s[Unit(s)..], word)
  {
    hide StartsSpelled, LowerWord, Unit;
    assert s[0..] == s;
    SpelledFrom(s, word, Unit(s));
    forall i: nat | 0 < i < Unit(s) ensures !StartsSpelled(s[i..], word) {
      NoSpellingInside(s, word, i);
    }
  }

  /** A lower-case word occurs in the lower-cased key exactly when the key has it in some letter case. */
  lemma {:induction false} SpelledExactly(s: Bytes, word: Bytes)
    requires LowerWord(word) && word != []
    ensures Contains(Lowered(s), word) <==> SpelledIn(s, word)
    decreases |s|
  {
    if s == [] {
      assert s[0..] == [];
    } else {
      LoweredStep(s);
      PrefixSpelled(s, word);
      SpelledExactly(s[Unit(s)..], word);
      SpelledStep(s, word);
      hide *;
      ContainsStep(Lowered(s[Unit(s)..]), Lowered(s)[0], word);
    }
  }

  predicate NamedKey(key: Bytes) {
    key in {Ascii("error"), Ascii("request_id"), Ascii("method"), Ascii("route"), Ascii("status"), Ascii("path"),
            Ascii("panic"), Ascii("dropped_count"), Ascii("stack")}
  }

  predicate SensitiveWordIn(key: Bytes) {
    SpelledIn(key, Ascii("password")) || SpelledIn(key, Ascii("token")) || SpelledIn(key, Ascii("authorization"))
    || SpelledIn(key, Ascii("cookie")) || SpelledIn(key, Ascii("secret")) || SpelledIn(key, Ascii("body"))
  }

  lemma NamedExactly(key: Bytes)
    ensures NamedKey(key) <==> IsKnown(key) || key == Ascii("stack")
  {
    hide Ascii;
    assert KNOWN[0] == "error" && KNOWN[1] == "request_id" && KNOWN[2] == "method" && KNOWN[3] == "route";
    assert KNOWN[4] == "status" && KNOWN[5] == "path" && KNOWN[6] == "panic" && KNOWN[7] == "dropped_count";
  }

  lemma WordSpelled(key: Bytes, part: string)
    requires part != "" && forall i :: 0 <= i < |part| ==> 'a' <= part[i] <= 'z'
    ensures Contains(Lowered(key), Ascii(part)) <==> SpelledIn(key, Ascii(part))
  {
    SpelledExactly(key, Ascii(part));
  }

  lemma SensitiveExactly(key: Bytes)
    ensures SensitiveKey(key) <==> SensitiveWordIn(key)
  {
    hide Ascii, SpelledIn, Lowered, Contains;
    forall part | part in SENSITIVE ensures Contains(Lowered(key), Ascii(part)) <==> SpelledIn(key, Ascii(part)) {
      WordSpelled(key, part);
    }
    assert SENSITIVE[0] == "password" && SENSITIVE[1] == "token" && SENSITIVE[2] == "authorization";
    assert SENSITIVE[3] == "cookie" && SENSITIVE[4] == "secret" && SENSITIVE[5] == "body";
  }

  /** The attributes shown besides the named ones: those whose key has none of the six words in any letter case. */
  lemma OtherExactly(key: Bytes)
    ensures IsOther(key) <==> !NamedKey(key) && !SensitiveWordIn(key)
  {
    hide NamedKey, IsKnown, SensitiveKey, SensitiveWordIn;
    NamedExactly(key);
    SensitiveExactly(key);
  }

  /** One attribute on a line of its own. */
  function LineOf(a: Attr): Bytes {
    NEWLINE + CleanText(a.0, 120) + Ascii(": ") + CleanText(a.1, 900)
  }

  function Lines(attrs: seq<Attr>): Bytes {
    if attrs == [] then [] else Lines(attrs[..|attrs| - 1]) + LineOf(attrs[|attrs| - 1])
  }

  predicate ShownOther(a: Attr) {
    a.1 != [] && !NamedKey(a.0) && !SensitiveWordIn(a.0)
  }

  /** Is the attribute given a line? Named ones are unless they are empty, others unless they are sensitive too. */
  predicate HasLine(a: Attr, named: bool) {
    if named then a.1 != [] else ShownOther(a)
  }

  /** `lines` are the items at the given positions, which are those of all items with a line, in order. */
  ghost predicate SelectedAt(lines: seq<Attr>, items: seq<Attr>, at: seq<nat>, named: bool) {
    |at| == |lines| && (forall i, j :: 0 <= i < j < |at| ==> at[i] < at[j])
    && (forall i :: 0 <= i < |at| ==> at[i] < |items| && lines[i] == items[at[i]])
    && forall k: nat :: k in at <==> k < |items| && HasLine(items[k], named)
  }

  /** The eight named attributes with their values, empty for those the event does not have. */
  function NamedAttrs(attrs: seq<Attr>): seq<Attr> {
    [(Ascii("error"), Lookup(attrs, Ascii("error"))), (Ascii("request_id"), Lookup(attrs, Ascii("request_id"))),
     (Ascii("method"), Lookup(attrs, Ascii("method"))), (Ascii("route"), Lookup(attrs, Ascii("route"))),
     (Ascii("status"), Lookup(attrs, Ascii("status"))), (Ascii("path"), Lookup(attrs, Ascii("path"))),
     (Ascii("panic"), Lookup(attrs, Ascii("panic"))),
     (Ascii("dropped_count"), Lookup(attrs, Ascii("dropped_count")))]
  }

  ghost predicate KnownLines(lines: seq<Attr>, attrs: seq<Attr>) {
    exists at :: SelectedAt(lines, NamedAttrs(attrs), at, true)
  }

  ghost predicate OtherLines(lines: seq<Attr>, attrs: seq<Attr>) {
    exists at :: SelectedAt(lines, attrs, at, false)
  }

  /** The first lines: environment and level, time, message. */
  function Head(e: Event, environment: Bytes): Bytes {
    Ascii("[my239 ") + CleanText(environment, 80) + Ascii("] ") + e.level + NEWLINE + e.time + NEWLINE
    + CleanText(e.message, 300)
  }

  function Stack(attrs: seq<Attr>): Bytes {
    var stack := Lookup(attrs, Ascii("stack"));
    if stack == [] then [] else NEWLINE + Ascii("stack:") + NEWLINE + CleanText(stack, 1800)
  }

  /** The first lines, one line for each known and each other attribute to be shown, and the stack; all of it if
      it fits a message, and otherwise as much of it as leaves room for three dots. */
  ghost predicate Tells(text: Bytes, e: Event, environment: Bytes) {
    exists known, others :: KnownLines(known, e.attrs) && OtherLines(others, e.attrs)
                            && Shows(text, Head(e, environment) + Lines(known) + Lines(others) + Stack(e.attrs))
  }

  ghost predicate Shows(text: Bytes, whole: Bytes) {
    if |whole| <= 3900 then text == whole else exists k: nat :: 3894 <= k <= 3897 && text == whole[..k] + Ascii("...")
  }

  lemma SelectNext(lines: seq<Attr>, items: seq<Attr>, at: seq<nat>, last: Attr, named: bool)
    requires SelectedAt(lines, items, at, named)
    ensures if HasLine(last, named) then SelectedAt(lines + [last], items + [last], at + [|items|], named)
            else SelectedAt(lines, items + [last], at, named)
  {
    hide HasLine;
    assert forall k: nat :: k < |items| ==> (items + [last])[k] == items[k];
    assert (items + [last])[|items|] == last;
  }

  lemma LinesAppend(lines: seq<Attr>, a: Attr)
    ensures Lines(lines + [a]) == Lines(lines) + LineOf(a)
  {
    assert (lines + [a])[..|lines|] == lines;
  }

  lemma AttrLine(a: Attr)
    ensures Concat(AttrParts(a.0, a.1)) == if a.1 == [] then [] else LineOf(a)
  {
    hide CleanText, Ascii;
    if a.1 != [] {
      var key, value := CleanText(a.0, 120), CleanText(a.1, 900);
      ConcatAppend([NEWLINE, key], [Ascii(": "), value]);
      ConcatTwo(NEWLINE, key);
      ConcatTwo(Ascii(": "), value);
      assert AttrParts(a.0, a.1) == [NEWLINE, key] + [Ascii(": "), value];
      Associate(NEWLINE + key, Ascii(": "), value);
    }
  }

  lemma {:induction false} OthersAreLines(attrs: seq<Attr>) returns (lines: seq<Attr>, at: seq<nat>)
    ensures Concat(OtherParts(attrs)) == Lines(lines) && SelectedAt(lines, attrs, at, false)
  {
    if attrs == [] {
      return [], [];
    }
    hide IsOther, NamedKey, SensitiveWordIn, LineOf, AttrParts, SelectedAt, Lines, Concat;
    var n := |attrs| - 1;
    var front, last := attrs[..n], attrs[n];
    assert attrs == front + [last];
    lines, at := OthersAreLines(front);
    ConcatAppend(OtherParts(front), if IsOther(last.0) then AttrParts(last.0, last.1) else []);
    ConcatNothing();
    OtherExactly(last.0);
    SelectNext(lines, front, at, last, false);
    LinesAppend(lines, last);
    AttrLine(last);
    if ShownOther(last) {
      lines, at := lines + [last], at + [n];
    }
  }

  lemma ConcatNothing()
    ensures Concat([]) == []
  {
  }

  function Valued(attrs: seq<Attr>, name: string): Attr {
    (Ascii(name), Lookup(attrs, Ascii(name)))
  }

  function AllValued(attrs: seq<Attr>, names: seq<string>): (r: seq<Attr>)
    ensures |r| == |names| && forall i :: 0 <= i < |r| ==> r[i] == Valued(attrs, names[i])
  {
    seq(|names|, i requires 0 <= i < |names| => Valued(attrs, names[i]))
  }

  lemma ValuedNext(attrs: seq<Attr>, front: seq<string>, name: string)
    ensures AllValued(attrs, front + [name]) == AllValued(attrs, front) + [Valued(attrs, name)]
    ensures KnownParts(attrs, front + [name])
            == KnownParts(attrs, front) + AttrParts(Valued(attrs, name).0, Valued(attrs, name).1)
  {
    hide AttrParts, Lookup, Ascii;
    assert (front + [name])[..|front|] == front;
  }

  lemma NamedHasLine(a: Attr)
    ensures HasLine(a, true) <==> a.1 != []
  {
  }

  lemma NoNames(attrs: seq<Attr>)
    ensures Concat(KnownParts(attrs, [])) == Lines([]) && SelectedAt([], AllValued(attrs, []), [], true)
  {
  }

  lemma {:induction false} KnownAreLines(attrs: seq<Attr>, names: seq<string>) returns (lines: seq<Attr>, at: seq<nat>)
    ensures Concat(KnownParts(attrs, names)) == Lines(lines) && SelectedAt(lines, AllValued(attrs, names), at, true)
    decreases |names|
  {
    if names == [] {
      NoNames(attrs);
      return [], [];
    }
    hide *;
    var front, name := names[..|names| - 1], names[|names| - 1];
    lines, at := KnownAreLines(attrs, front);
    assert names == front + [name];
    lines, at := NextKnownLine(attrs, front, name, lines, at);
  }

  lemma NextKnownLine(attrs: seq<Attr>, front: seq<string>, name: string, before: seq<Attr>, beforeAt: seq<nat>)
    returns (lines: seq<Attr>, at: seq<nat>)
    requires Concat(KnownParts(attrs, front)) == Lines(before)
    requires SelectedAt(before, AllValued(attrs, front), beforeAt, true)
    ensures Concat(KnownParts(attrs, front + [name])) == Lines(lines)
    ensures SelectedAt(lines, AllValued(attrs, front + [name]), at, true)
  {
    hide *;
    lines, at := before, beforeAt;
    var last := Valued(attrs, name);
    ValuedNext(attrs, front, name);
    NamedHasLine(last);
    ConcatAppend(KnownParts(attrs, front), AttrParts(last.0, last.1));
    SelectNext(lines, AllValued(attrs, front), at, last, true);
    LinesAppend(lines, last);
    AttrLine(last);
    if last.1 != [] {
      lines, at := lines + [last], at + [|AllValued(attrs, front)|];
    }
  }

  lemma NamedAre(attrs: seq<Attr>)
    ensures NamedAttrs(attrs) == AllValued(attrs, KNOWN)
  {
    hide Lookup, Ascii;
    assert KNOWN[0] == "error" && KNOWN[1] == "request_id" && KNOWN[2] == "method" && KNOWN[3] == "route";
    assert KNOWN[4] == "status" && KNOWN[5] == "path" && KNOWN[6] == "panic" && KNOWN[7] == "dropped_count";
  }

  lemma HeadIs(e: Event, environment: Bytes)
    ensures Concat(HeadParts(e, environment)) == Head(e, environment)
  {
    hide CleanText, Ascii;
    var a, b, c, m := Ascii("[my239 "), CleanText(environment, 80), Ascii("] "), CleanText(e.message, 300);
    ConcatThree(a, b, c);
    ConcatThree(e.level, NEWLINE, e.time);
    ConcatTwo(NEWLINE, m);
    ConcatAppend([a, b, c], [e.level, NEWLINE, e.time]);
    ConcatAppend([a, b, c, e.level, NEWLINE, e.time], [NEWLINE, m]);
    hide *;
    assert [a, b, c] + [e.level, NEWLINE, e.time] == [a, b, c, e.level, NEWLINE, e.time];
    assert [a, b, c, e.level, NEWLINE, e.time] + [NEWLINE, m] == [a, b, c, e.level, NEWLINE, e.time, NEWLINE, m];
    HeadAs(e, environment, a, b, c, m);
  }

  lemma HeadAs(e: Event, environment: Bytes, a: Bytes, b: Bytes, c: Bytes, m: Bytes)
    requires a == Ascii("[my239 ") && b == CleanText(environment, 80) && c == Ascii("] ") && m == CleanText(e.message, 300)
    ensures HeadParts(e, environment) == [a, b, c, e.level, NEWLINE, e.time, NEWLINE, m]
    ensures Head(e, environment) == a + b + c + (e.level + NEWLINE + e.time) + (NEWLINE + m)
  {
    hide CleanText, Ascii;
    var s := a + b + c;
    assert Head(e, environment) == s + e.level + NEWLINE + e.time + NEWLINE + m;
  }

  lemma ConcatTwo(a: Bytes, b: Bytes)
    ensures Concat([a, b]) == a + b
  {
    assert [a, b][1..] == [b];
    assert Concat([b]) == b;
  }

  lemma ConcatThree(a: Bytes, b: Bytes, c: Bytes)
    ensures Concat([a, b, c]) == a + b + c
  {
    assert [a, b, c][1..] == [b, c];
    ConcatTwo(b, c);
  }

  lemma StackIs(attrs: seq<Attr>)
    ensures Concat(StackParts(attrs)) == Stack(attrs)
  {
    hide CleanText, Ascii, Lookup;
    if Lookup(attrs, Ascii("stack")) != [] {
      ConcatTwo(NEWLINE + Ascii("stack:") + NEWLINE, CleanText(Lookup(attrs, Ascii("stack")), 1800));
    }
  }

  lemma CutShows(whole: Bytes)
    requires Valid(whole)
    ensures Shows(Truncated(whole, 3900), whole)
  {
    TruncationIsTight(whole, 3900);
  }

  /** What the text of an event says. */
  lemma FormattedTells(e: Event, environment: Bytes)
    requires Valid(e.level) && Valid(e.time)
    ensures Tells(Formatted(e, environment), e, environment)
  {
    assert MAX_MESSAGE == 3900;
    hide *;
    var known, knownAt := KnownAreLines(e.attrs, KNOWN);
    var others, othersAt := OthersAreLines(e.attrs);
    NamedAre(e.attrs);
    PartsAreValid(e, environment);
    Named(e, environment);
    var whole := Concat(Parts(e, environment));
    CutShows(whole);
    HeadIs(e, environment);
    StackIs(e.attrs);
    ConcatAppend(HeadParts(e, environment), KnownParts(e.attrs, KNOWN));
    ConcatAppend(HeadParts(e, environment) + KnownParts(e.attrs, KNOWN), OtherParts(e.attrs));
    ConcatAppend(HeadParts(e, environment) + KnownParts(e.attrs, KNOWN) + OtherParts(e.attrs), StackParts(e.attrs));
    assert whole == Head(e, environment) + Lines(known) + Lines(others) + Stack(e.attrs);
    KnownLinesAt(known, others, e.attrs, knownAt, othersAt);
    TellsBy(Formatted(e, environment), e, environment, known, others);
  }

  lemma KnownLinesAt(known: seq<Attr>, others: seq<Attr>, attrs: seq<Attr>, knownAt: seq<nat>, othersAt: seq<nat>)
    requires SelectedAt(known, NamedAttrs(attrs), knownAt, true) && SelectedAt(others, attrs, othersAt, false)
    ensures KnownLines(known, attrs) && OtherLines(others, attrs)
  {
    hide NamedAttrs, SelectedAt;
  }

  lemma TellsBy(text: Bytes, e: Event, environment: Bytes, known: seq<Attr>, others: seq<Attr>)
    requires KnownLines(known, e.attrs) && OtherLines(others, e.attrs)
    requires Shows(text, Head(e, environment) + Lines(known) + Lines(others) + Stack(e.attrs))
    ensures Tells(text, e, environment)
  {
    hide KnownLines, OtherLines, Shows, Head, Lines, Stack;
  }

  lemma HeadIsShort(e: Event, environment: Bytes)
    ensures |Head(e, environment)| <= 391 + |e.level| + |e.time|
  {
    CleanTextIsValid(environment, 80);
    CleanTextIsValid(e.message, 300);
    hide CleanText;
  }

  /** However long the rest, the text starts with environment, level, time and message. */
  lemma HeadIsTold(text: Bytes, e: Event, environment: Bytes)
    requires Tells(text, e, environment) && |e.level| + |e.time| <= 3500
    ensures Head(e, environment) <= text
  {
    HeadIsShort(e, environment);
    hide KnownLines, OtherLines, Head, Lines, Stack;
    var known, others :| KnownLines(known, e.attrs) && OtherLines(others, e.attrs)
                         && Shows(text, Head(e, environment) + Lines(known) + Lines(others) + Stack(e.attrs));
    StartsWhole(text, Head(e, environment), Lines(known) + Lines(others) + Stack(e.attrs)) by {
      assert Head(e, environment) + (Lines(known) + Lines(others) + Stack(e.attrs))
          == Head(e, environment) + Lines(known) + Lines(others) + Stack(e.attrs);
    }
  }

  lemma StartsWhole(text: Bytes, head: Bytes, rest: Bytes)
    requires Shows(text, head + rest) && |head| <= 3894
    ensures head <= text
  {
    if |head + rest| > 3900 {
      var k: nat :| 3894 <= k <= 3897 && text == (head + rest)[..k] + Ascii("...");
      assert (head + rest)[..k][..|head|] == head;
    }
  }

  lemma ContainsAround(a: Bytes, part: Bytes, b: Bytes)
    ensures Contains(a + part + b, part)
  {
    assert OccursAt(a + part + b, part, |a|);
  }

  lemma {:induction false} LineInside(lines: seq<Attr>, i: nat) returns (before: Bytes, after: Bytes)
    requires i < |lines|
    ensures Lines(lines) == before + LineOf(lines[i]) + after
  {
    hide LineOf;
    var n := |lines| - 1;
    if i == n {
      before, after := Lines(lines[..n]), [];
    } else {
      before, after := LineInside(lines[..n], i);
      after := after + LineOf(lines[n]);
    }
  }

  lemma LineSelected(lines: seq<Attr>, items: seq<Attr>, at: seq<nat>, named: bool, a: Attr) returns (i: nat)
    requires SelectedAt(lines, items, at, named) && a in items && HasLine(a, named)
    ensures i < |lines| && lines[i] == a
  {
    hide HasLine;
    var k: nat :| k < |items| && items[k] == a;
    assert k in at;
    i :| i < |at| && at[i] == k;
  }

  /** A text below the bound has a line of its own for every known attribute that is not empty, and for every
      other one that is neither empty nor sensitive. */
  lemma LinesAreTold(text: Bytes, e: Event, environment: Bytes, a: Attr)
    requires Tells(text, e, environment) && |text| < 3897
    requires (a in NamedAttrs(e.attrs) && a.1 != []) || (a in e.attrs && ShownOther(a))
    ensures Contains(text, LineOf(a))
  {
    hide NamedAttrs, SelectedAt, ShownOther, Head, Lines, LineOf, Stack, Contains;
    var known, others :| KnownLines(known, e.attrs) && OtherLines(others, e.attrs)
                         && Shows(text, Head(e, environment) + Lines(known) + Lines(others) + Stack(e.attrs));
    var head, stack := Head(e, environment), Stack(e.attrs);
    assert text == head + Lines(known) + Lines(others) + stack;
    if a in NamedAttrs(e.attrs) && a.1 != [] {
      var at :| SelectedAt(known, NamedAttrs(e.attrs), at, true);
      var i := LineSelected(known, NamedAttrs(e.attrs), at, true, a);
      var before, after := LineInside(known, i);
      ContainsAround(head + before, LineOf(a), after + Lines(others) + stack);
      assert text == head + before + LineOf(a) + (after + Lines(others) + stack);
    } else {
      var at :| SelectedAt(others, e.attrs, at, false);
      var i := LineSelected(others, e.attrs, at, false, a);
      var before, after := LineInside(others, i);
      ContainsAround(head + Lines(known) + before, LineOf(a), after + stack);
      assert text == head + Lines(known) + before + LineOf(a) + (after + stack);
    }
  }

  // ---- what stays out of the text ----

  /** A sensitive attribute that is not one of the named ones. */
  predicate Hidden(key: Bytes) {
    SensitiveKey(key) && !IsKnown(key) && key != Ascii("stack")
  }

  function Shown(attrs: seq<Attr>): seq<Attr> {
    if attrs == [] then []
    else
      var last := attrs[|attrs| - 1];
      Shown(attrs[..|attrs| - 1]) + if Hidden(last.0) then [] else [last]
  }

  predicate HasKey(attrs: seq<Attr>, key: Bytes) {
    exists a :: a in attrs && a.0 == key
  }

  lemma {:induction false} LookupAppend(attrs: seq<Attr>, a: Attr, key: Bytes)
    ensures Lookup(attrs + [a], key) ==
      if HasKey(attrs, key) then Lookup(attrs, key) else if a.0 == key then a.1 else []
    ensures !HasKey(attrs, key) ==> Lookup(attrs, key) == []
  {
    if attrs == [] {
      assert [a][1..] == [];
    } else {
      assert (attrs + [a])[1..] == attrs[1..] + [a];
      assert attrs == [attrs[0]] + attrs[1..];
      LookupAppend(attrs[1..], a, key);
    }
  }

  /** A value is found under its key. */
  lemma {:induction false} LookupExactly(attrs: seq<Attr>, a: Attr)
    requires forall i, j :: 0 <= i < j < |attrs| ==> attrs[i].0 != attrs[j].0
    ensures a in attrs ==> Lookup(attrs, a.0) == a.1
    ensures !HasKey(attrs, a.0) ==> Lookup(attrs, a.0) == []
  {
    if attrs != [] {
      LookupExactly(attrs[1..], a);
      assert attrs == [attrs[0]] + attrs[1..];
      assert a != attrs[0] && a in attrs ==> a in attrs[1..] && attrs[0].0 != a.0;
    }
  }

  lemma {:induction false} ShownLookup(attrs: seq<Attr>, key: Bytes)
    requires !Hidden(key)
    ensures Lookup(Shown(attrs), key) == Lookup(attrs, key)
    ensures HasKey(Shown(attrs), key) <==> HasKey(attrs, key)
  {
    hide Hidden;
    if attrs != [] {
      var front, last := attrs[..|attrs| - 1], attrs[|attrs| - 1];
      assert attrs == front + [last];
      ShownLookup(front, key);
      LookupAppend(front, last, key);
      LookupAppend(Shown(front), last, key);
      assert Shown(attrs) == if Hidden(last.0) then Shown(front) else Shown(front) + [last];
      assert Hidden(last.0) ==> last.0 != key;
    }
  }

  lemma {:induction false} ShownOthers(attrs: seq<Attr>)
    ensures OtherParts(Shown(attrs)) == OtherParts(attrs)
  {
    hide SensitiveKey, IsKnown, AttrParts;
    if attrs != [] {
      var front, last := attrs[..|attrs| - 1], attrs[|attrs| - 1];
      ShownOthers(front);
      assert Shown(attrs) == if Hidden(last.0) then Shown(front) else Shown(front) + [last];
      assert Hidden(last.0) ==> !IsOther(last.0);
      assert (Shown(front) + [last])[..|Shown(front)|] == Shown(front);
    }
  }

  lemma NamesAreNotHidden(name: string)
    requires name in KNOWN || name == "stack"
    ensures !Hidden(Ascii(name))
  {
    hide SensitiveKey;
  }

  lemma {:induction false} ShownKnown(attrs: seq<Attr>, names: seq<string>)
    requires forall name :: name in names ==> name in KNOWN
    ensures KnownParts(Shown(attrs), names) == KnownParts(attrs, names)
    decreases |names|
  {
    hide Hidden, AttrParts, Lookup, Shown;
    if names != [] {
      ShownKnown(attrs, names[..|names| - 1]);
      NamesAreNotHidden(names[|names| - 1]);
      ShownLookup(attrs, Ascii(names[|names| - 1]));
    }
  }

  /** Sensitive attributes leave no trace: the text is that of the event without them. */
  lemma SensitiveLeavesNoTrace(e: Event, environment: Bytes)
    ensures Formatted(e, environment) == Formatted(e.(attrs := Shown(e.attrs)), environment)
  {
    hide Shown, Truncated, OtherParts, KnownParts, Hidden, Lookup, Concat;
    NamesAreNotHidden("stack");
    ShownLookup(e.attrs, Ascii("stack"));
    ShownOthers(e.attrs);
    ShownKnown(e.attrs, KNOWN);
  }

  // ---- batches ----

  const BLANK_LINE: Bytes := [0x0A, 0x0A]

  /** Texts with a blank line between them. */
  function Joined(texts: seq<Bytes>): Bytes {
    if texts == [] then []
    else if |texts| == 1 then texts[0]
    else Joined(texts[..|texts| - 1]) + BLANK_LINE + texts[|texts| - 1]
  }

  /** A message holds a group of texts, none of them empty. */
  ghost predicate Group(texts: seq<Bytes>) {
    texts != [] && |Joined(texts)| <= MAX_MESSAGE
  }

  function Flatten(groups: seq<seq<Bytes>>): seq<Bytes> {
    if groups == [] then [] else groups[0] + Flatten(groups[1..])
  }

  /** A way to send texts in order, within the bound. */
  ghost predicate Packing(groups: seq<seq<Bytes>>, texts: seq<Bytes>) {
    Flatten(groups) == texts && forall g :: g in groups ==> Group(g)
  }

  /** No group could have taken one text more. */
  ghost predicate Greedy(groups: seq<seq<Bytes>>) {
    forall i :: 0 < i < |groups| ==> FullBefore(groups, i)
  }

  predicate FullBefore(groups: seq<seq<Bytes>>, i: nat)
    requires 0 < i < |groups|
  {
    groups[i] != [] && Overfull(groups[i - 1], groups[i][0])
  }

  predicate Overfull(group: seq<Bytes>, text: Bytes) {
    |Joined(group)| + |text| + 2 > MAX_MESSAGE
  }

  lemma {:induction false} JoinedLength(a: seq<Bytes>, b: seq<Bytes>)
    ensures a != [] && b != [] ==> |Joined(a + b)| == |Joined(a)| + 2 + |Joined(b)|
    ensures |Joined(a + b)| >= |Joined(a)| && |Joined(a + b)| >= |Joined(b)|
    decreases |b|
  {
    if b == [] {
      assert a + b == a;
    } else if a == [] {
      assert a + b == b;
      JoinedLength(a, b[..|b| - 1]);
    } else {
      var front := b[..|b| - 1];
      assert (a + b)[..|a + b| - 1] == a + front;
      JoinedLength(a, front);
      if front == [] {
        assert a + front == a;
      }
    }
  }

  lemma {:induction false} FlattenSplit(groups: seq<seq<Bytes>>, g: seq<Bytes>)
    ensures Flatten(groups + [g]) == Flatten(groups) + g
  {
    if groups == [] {
      assert groups + [g] == [g] && Flatten([g]) == g + Flatten([g][1..]);
    } else {
      FlattenSplit(groups[1..], g);
      assert (groups + [g])[1..] == groups[1..] + [g];
    }
  }

  /** Greedy packing needs no more groups than any packing of the same texts, or of more of them. */
  lemma {:induction false} GreedyIsOptimal(greedy: seq<seq<Bytes>>, others: seq<seq<Bytes>>, extra: seq<Bytes>)
    requires Greedy(greedy) && Flatten(others) == extra + Flatten(greedy)
    requires forall g :: g in greedy ==> g != []
    requires forall g :: g in others ==> Group(g)
    ensures |greedy| <= |others|
    decreases |greedy|
  {
    hide Joined;
    if |greedy| == 1 {
      assert greedy[0] in greedy;
      assert others == [] ==> Flatten(others) == [];
    } else if |greedy| > 1 {
      assert greedy[0] in greedy && greedy[1] in greedy;
      assert others[0] in others;
      var rest := Flatten(greedy[1..]);
      FirstEndsInTime(greedy, others, extra);
      var more := (extra + greedy[0])[|others[0]|..];
      assert Flatten(others[1..]) == more + rest by {
        assert Flatten(others) == (extra + greedy[0]) + rest;
        assert Flatten(others)[|others[0]|..] == Flatten(others[1..]);
      }
      GreedyTail(greedy);
      assert forall g :: g in greedy[1..] ==> g in greedy;
      assert forall g :: g in others[1..] ==> g in others;
      GreedyIsOptimal(greedy[1..], others[1..], more);
    }
  }

  lemma GreedyTail(groups: seq<seq<Bytes>>)
    requires Greedy(groups) && groups != []
    ensures Greedy(groups[1..])
  {
    hide Overfull;
    forall i | 0 < i < |groups| - 1 ensures FullBefore(groups[1..], i) {
      assert FullBefore(groups, i + 1);
    }
  }

  /** Another packing's first group cannot reach past the greedy one's. */
  lemma FirstEndsInTime(greedy: seq<seq<Bytes>>, others: seq<seq<Bytes>>, extra: seq<Bytes>)
    requires Greedy(greedy) && Flatten(others) == extra + Flatten(greedy) && |greedy| > 1 && others != []
    requires greedy[0] != [] && greedy[1] != [] && Group(others[0])
    ensures |others[0]| <= |extra| + |greedy[0]|
  {
    assert FullBefore(greedy, 1);
    var full, next := greedy[0], greedy[1][0];
    var rest := greedy[1] + Flatten(greedy[1..][1..]);
    assert Flatten(greedy) == full + rest;
    hide *;
    if |others[0]| > |extra| + |full| {
      FlattenStep(others);
      assert extra + (full + rest) == (extra + full) + rest;
      CoversOneMore(others[0], Flatten(others[1..]), extra + full, rest);
      TooLong(extra, full, next, others[0][|extra| + |full| + 1..]);
    }
  }

  lemma FlattenStep(groups: seq<seq<Bytes>>)
    requires groups != []
    ensures Flatten(groups) == groups[0] + Flatten(groups[1..])
  {
  }

  lemma CoversOneMore<T>(x: seq<T>, y: seq<T>, a: seq<T>, b: seq<T>)
    requires x + y == a + b && |x| > |a| && b != []
    ensures x == a + [b[0]] + x[|a| + 1..]
  {
    assert (x + y)[..|a| + 1] == x[..|a| + 1] && (a + b)[..|a| + 1] == a + [b[0]];
  }

  lemma TooLong(extra: seq<Bytes>, full: seq<Bytes>, next: Bytes, more: seq<Bytes>)
    requires full != [] && Overfull(full, next)
    ensures !Group(extra + full + [next] + more)
  {
    hide Joined;
    OneJoined(next);
    JoinedLength(full, [next]);
    assert extra + (full + [next]) == extra + full + [next];
    JoinedLength(extra, full + [next]);
    JoinedLength(extra + full + [next], more);
  }

  lemma OneJoined(text: Bytes)
    ensures Joined([text]) == text
  {
  }

  /** Joining the messages joins the texts: nothing is lost, added or reordered. */
  lemma {:induction false} JoinedAgain(groups: seq<seq<Bytes>>)
    requires forall g :: g in groups ==> g != []
    ensures Joined(MessagesOf(groups)) == Joined(Flatten(groups))
    decreases |groups|
  {
    hide Joined;
    if groups != [] {
      var front, last := groups[..|groups| - 1], groups[|groups| - 1];
      assert groups == front + [last] && last in groups;
      assert forall g :: g in front ==> g in groups;
      FlattenSplit(front, last);
      JoinedAgain(front);
      assert MessagesOf(groups) == MessagesOf(front) + [Joined(last)];
      if front == [] {
        OneJoined(Joined(last));
        assert Flatten(groups) == last && MessagesOf(groups) == [Joined(last)];
      } else {
        assert front[0] in groups;
        JoinedStep(MessagesOf(front), Joined(last));
        JoinedConcat(Flatten(front), last);
      }
    }
  }

  lemma JoinedStep(texts: seq<Bytes>, text: Bytes)
    requires texts != []
    ensures Joined(texts + [text]) == Joined(texts) + BLANK_LINE + text
  {
    assert (texts + [text])[..|texts|] == texts;
  }

  lemma {:induction false} JoinedConcat(a: seq<Bytes>, b: seq<Bytes>)
    requires a != [] && b != []
    ensures Joined(a + b) == Joined(a) + BLANK_LINE + Joined(b)
    decreases |b|
  {
    hide Joined;
    if |b| == 1 {
      OneJoined(b[0]);
      assert b == [b[0]];
      JoinedStep(a, b[0]);
    } else {
      var front, last := b[..|b| - 1], b[|b| - 1];
      assert b == front + [last] && a + b == (a + front) + [last];
      JoinedConcat(a, front);
      JoinedStep(a + front, last);
      JoinedStep(front, last);
      assert Joined(a + b) == Joined(a) + BLANK_LINE + (Joined(front) + BLANK_LINE + last);
    }
  }

  function MessagesOf(groups: seq<seq<Bytes>>): (m: seq<Bytes>)
    ensures |m| == |groups| && forall i :: 0 <= i < |m| ==> m[i] == Joined(groups[i])
  {
    seq(|groups|, i requires 0 <= i < |groups| => Joined(groups[i]))
  }

  function AllFormatted(events: seq<Event>, environment: Bytes): (t: seq<Bytes>)
    ensures |t| == |events| && forall i :: 0 <= i < |t| ==> t[i] == Formatted(events[i], environment)
  {
    seq(|events|, i requires 0 <= i < |events| => Formatted(events[i], environment))
  }

  lemma {:induction false} JoinedIsValid(texts: seq<Bytes>)
    requires forall t :: t in texts ==> Valid(t)
    ensures Valid(Joined(texts))
    decreases |texts|
  {
    hide Valid;
    AsciiIsValid(BLANK_LINE);
    AsciiIsValid([]);
    if |texts| == 1 {
      assert texts[0] in texts;
    } else if |texts| > 1 {
      var front := Joined(texts[..|texts| - 1]);
      JoinedIsValid(texts[..|texts| - 1]);
      assert texts[|texts| - 1] in texts;
      ValidConcat(front, BLANK_LINE);
      ValidConcat(front + BLANK_LINE, texts[|texts| - 1]);
    }
  }

  // ---- the loop ----

  /** The state of formatBatch: closed groups and the one being filled. */
  ghost predicate Batching(groups: seq<seq<Bytes>>, open: seq<Bytes>, texts: seq<Bytes>, chunks: seq<Bytes>,
                           current: Bytes)
  {
    chunks == MessagesOf(groups) && current == Joined(open)
    && (open == [] <==> current == []) && (open == [] ==> groups == [])
    && Flatten(groups) + open == texts
    && (forall g :: g in groups ==> Group(g)) && (open != [] ==> Group(open))
    && Greedy(if open == [] then groups else groups + [open])
  }

  lemma StartBatch()
    ensures Batching([], [], [], [], [])
  {
  }

  /** The text still fits: it joins the open group. */
  lemma ExtendGroup(groups: seq<seq<Bytes>>, open: seq<Bytes>, texts: seq<Bytes>, chunks: seq<Bytes>, current: Bytes,
                    text: Bytes)
    requires Batching(groups, open, texts, chunks, current) && 0 < |text| <= MAX_MESSAGE
    requires current == [] || |current| + |text| + 2 <= MAX_MESSAGE
    ensures Batching(groups, open + [text], texts + [text], chunks,
                     if current == [] then text else current + BLANK_LINE + text)
  {
    hide Joined, Overfull;
    OneJoined(text);
    if open == [] {
      assert open + [text] == [text];
    } else {
      JoinedStep(open, text);
    }
    assert Flatten(groups) + (open + [text]) == texts + [text];
    GreedyExtend(groups, open, text);
  }

  lemma GreedyExtend(groups: seq<seq<Bytes>>, open: seq<Bytes>, text: Bytes)
    requires Greedy(if open == [] then groups else groups + [open]) && (open == [] ==> groups == [])
    ensures Greedy(groups + [open + [text]])
  {
    hide Overfull;
    var longer := groups + [open + [text]];
    forall i | 0 < i < |longer| ensures FullBefore(longer, i) {
      assert FullBefore(groups + [open], i);
      assert i == |groups| ==> (open + [text])[0] == open[0];
    }
  }

  /** The text does not fit: the open group is closed and the text opens the next one. */
  lemma CloseGroup(groups: seq<seq<Bytes>>, open: seq<Bytes>, texts: seq<Bytes>, chunks: seq<Bytes>, current: Bytes,
                   text: Bytes)
    requires Batching(groups, open, texts, chunks, current) && 0 < |text| <= MAX_MESSAGE
    requires current != [] && |current| + |text| + 2 > MAX_MESSAGE
    ensures Batching(groups + [open], [text], texts + [text], chunks + [current], text)
  {
    hide Joined;
    OneJoined(text);
    FlattenSplit(groups, open);
    assert Flatten(groups + [open]) + [text] == texts + [text];
    assert MessagesOf(groups + [open]) == MessagesOf(groups) + [Joined(open)];
    assert Overfull(open, text);
    GreedyClose(groups, open, text);
  }

  lemma GreedyClose(groups: seq<seq<Bytes>>, open: seq<Bytes>, text: Bytes)
    requires Greedy(groups + [open]) && Overfull(open, text)
    ensures Greedy(groups + [open] + [[text]])
  {
    hide Overfull;
    var longer := groups + [open] + [[text]];
    forall i | 0 < i < |longer| ensures FullBefore(longer, i) {
      assert i < |groups| + 1 ==> FullBefore(groups + [open], i);
    }
  }

  /** A batch as it is sent: a greedy packing of the texts, joined group by group. */
  ghost predicate Batched(chunks: seq<Bytes>, groups: seq<seq<Bytes>>, texts: seq<Bytes>) {
    chunks == MessagesOf(groups) && Packing(groups, texts) && Greedy(groups)
  }

  lemma EndBatch(groups: seq<seq<Bytes>>, open: seq<Bytes>, texts: seq<Bytes>, chunks: seq<Bytes>, current: Bytes)
    requires Batching(groups, open, texts, chunks, current)
    ensures if current == [] then Batched(chunks, groups, texts) else Batched(chunks + [current], groups + [open], texts)
  {
    hide Joined, Greedy, Group;
    if current == [] {
      assert Flatten(groups) + [] == Flatten(groups);
    } else {
      FlattenSplit(groups, open);
      assert MessagesOf(groups + [open]) == MessagesOf(groups) + [Joined(open)];
    }
  }

  /** One turn of the loop: close the open message if the text no longer fits, then append it. */
  method AddText(ghost groups: seq<seq<Bytes>>, ghost open: seq<Bytes>, ghost texts: seq<Bytes>, before: seq<Bytes>,
                 current: Bytes, formatted: Bytes)
    returns (chunks: seq<Bytes>, next: Bytes, ghost closed: seq<seq<Bytes>>, ghost filling: seq<Bytes>)
    requires Batching(groups, open, texts, before, current) && 0 < |formatted| <= MAX_MESSAGE
    ensures Batching(closed, filling, texts + [formatted], chunks, next)
  {
    assert |BLANK_LINE| == 2;
    hide Batching;
    chunks, next, closed, filling := before, current, groups, open;
    if |current| > 0 && |current| + |formatted| + 2 > MAX_MESSAGE {
      CloseGroup(groups, open, texts, before, current, formatted);
      return before + [current], formatted, groups + [open], [formatted];
    }
    ExtendGroup(groups, open, texts, before, current, formatted);
    next := if |current| > 0 then current + BLANK_LINE + formatted else formatted;
    filling := open + [formatted];
  }

  lemma TextAt(events: seq<Event>, environment: Bytes, i: nat)
    requires i < |events| && Valid(events[i].level) && Valid(events[i].time)
    ensures var texts := AllFormatted(events, environment);
            texts[..i + 1] == texts[..i] + [texts[i]] && 0 < |texts[i]| <= MAX_MESSAGE
  {
    hide Formatted, Valid;
    FormattedFits(events[i], environment);
  }

  /** formatBatch. */
  method FormatBatch(events: seq<Event>, environment: Bytes) returns (chunks: seq<Bytes>, ghost groups: seq<seq<Bytes>>)
    requires forall e :: e in events ==> Valid(e.level) && Valid(e.time)
    ensures Batched(chunks, groups, AllFormatted(events, environment))
    ensures Joined(chunks) == Joined(AllFormatted(events, environment))
    ensures forall i :: 0 <= i < |events| ==> Tells(AllFormatted(events, environment)[i], events[i], environment)
    ensures forall c :: c in chunks ==> Valid(c) && |c| <= MAX_MESSAGE
  {
    hide *;
    ghost var texts := AllFormatted(events, environment);
    chunks, groups := [], [];
    ghost var open: seq<Bytes> := [];
    var current: Bytes := [];
    StartBatch();
    for i := 0 to |events|
      invariant Batching(groups, open, texts[..i], chunks, current)
    {
      var formatted := FormatEvent(events[i], environment);
      assert events[i] in events;
      TextAt(events, environment, i);
      chunks, current, groups, open := AddText(groups, open, texts[..i], chunks, current, formatted);
    }
    assert texts[..|events|] == texts;
    EndBatch(groups, open, texts, chunks, current);
    if |current| > 0 {
      groups := groups + [open];
      chunks := chunks + [current];
    }
    BatchesAreLossless(chunks, groups, texts);
    AllTextsValid(events, environment);
    forall i | 0 <= i < |events| ensures Tells(texts[i], events[i], environment) {
      assert events[i] in events;
      FormattedTells(events[i], environment);
    }
    forall c | c in chunks ensures Valid(c) && |c| <= MAX_MESSAGE {
      var i :| 0 <= i < |chunks| && chunks[i] == c;
      MessagesFit(chunks, groups, texts, i);
    }
  }

  lemma AllTextsValid(events: seq<Event>, environment: Bytes)
    requires forall e :: e in events ==> Valid(e.level) && Valid(e.time)
    ensures forall t :: t in AllFormatted(events, environment) ==> Valid(t)
  {
    hide Formatted, Valid;
    forall i | 0 <= i < |events| ensures Valid(Formatted(events[i], environment)) {
      FormattedFits(events[i], environment);
    }
  }

  // ---- what the recipients get ----

  /** Joining the messages of a batch with blank lines gives all texts in order. */
  lemma BatchesAreLossless(chunks: seq<Bytes>, groups: seq<seq<Bytes>>, texts: seq<Bytes>)
    requires Batched(chunks, groups, texts)
    ensures Joined(chunks) == Joined(texts)
  {
    hide Joined, Greedy;
    JoinedAgain(groups);
  }

  /** Every message is valid UTF-8, not too long, and holds at least one text. */
  lemma MessagesFit(chunks: seq<Bytes>, groups: seq<seq<Bytes>>, texts: seq<Bytes>, i: nat)
    requires Batched(chunks, groups, texts) && i < |chunks|
    requires forall t :: t in texts ==> Valid(t)
    ensures Valid(chunks[i]) && |chunks[i]| <= MAX_MESSAGE && groups[i] != []
  {
    hide Joined, Greedy, Valid;
    assert groups[i] in groups;
    forall t | t in groups[i] ensures Valid(t) {
      InFlatten(groups, i, t);
    }
    JoinedIsValid(groups[i]);
  }

  lemma {:induction false} InFlatten(groups: seq<seq<Bytes>>, i: nat, t: Bytes)
    requires i < |groups| && t in groups[i]
    ensures t in Flatten(groups)
  {
    if i > 0 {
      InFlatten(groups[1..], i - 1, t);
    }
  }

  /** No order-preserving packing within the bound uses fewer messages. */
  lemma BatchesAreFewest(chunks: seq<Bytes>, groups: seq<seq<Bytes>>, texts: seq<Bytes>, others: seq<seq<Bytes>>)
    requires Batched(chunks, groups, texts) && Packing(others, texts)
    ensures |chunks| <= |others|
  {
    hide Joined, Greedy;
    assert [] + Flatten(groups) == Flatten(groups);
    GreedyIsOptimal(groups, others, []);
  }
}
