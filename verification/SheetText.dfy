/** Text handling of the worksheet readers (internal/googlesheets/service.go): white space, the two
    normalisations, and decimal numbers. Strings are sequences of Unicode characters; case folding
    covers Latin and Cyrillic. */
module SheetText {
  import opened Prelude

  // ---- characters ----

  /** unicode.IsSpace. */
  predicate IsSpace(c: char) {
    c in {'\t', '\n', '\U{000B}', '\U{000C}', '\r', ' ', '\U{0085}', '\U{00A0}', '\U{1680}',
          '\U{2028}', '\U{2029}', '\U{202F}', '\U{205F}', '\U{3000}'}
    || '\U{2000}' <= c <= '\U{200A}'
  }

  /** The `\s` of a Go regular expression. */
  predicate IsRegexpSpace(c: char) {
    c in {'\t', '\n', '\U{000C}', '\r', ' '}
  }

  predicate IsDigit(c: char) {
    '0' <= c <= '9'
  }

  function Lower(c: char): char {
    if 'A' <= c <= 'Z' || 'А' <= c <= 'Я' then (c as int + 32) as char
    else if '\U{0400}' <= c <= '\U{040F}' then (c as int + 80) as char
    else c
  }

  function YoToYe(c: char): char {
    if c == 'ё' then 'е' else c
  }

  /** The Cyrillic letters that look like Latin ones. */
  function LookAlike(c: char): char {
    if c == 'а' then 'a' else if c == 'в' then 'b' else if c == 'с' then 'c' else if c == 'е' then 'e'
    else if c == 'к' then 'k' else if c == 'м' then 'm' else if c == 'н' then 'h' else if c == 'о' then 'o'
    else if c == 'р' then 'p' else if c == 'т' then 't' else if c == 'у' then 'y' else if c == 'х' then 'x'
    else c
  }

  function LabelChar(c: char): char {
    LookAlike(YoToYe(Lower(c)))
  }

  // ---- words ----

  predicate NoSpace(s: string) {
    forall i :: 0 <= i < |s| ==> !IsSpace(s[i])
  }

  predicate IsWord(s: string) {
    s != [] && NoSpace(s)
  }

  /** Length of the word a string starts with. */
  function WordLength(s: string): (n: nat)
    ensures n <= |s| && NoSpace(s[..n]) && (n < |s| ==> IsSpace(s[n]))
  {
    if s == [] || IsSpace(s[0]) then 0 else 1 + WordLength(s[1..])
  }

  /** strings.Fields. */
  function Fields(s: string): (words: seq<string>)
    ensures forall w :: w in words ==> IsWord(w)
    decreases |s|
  {
    if s == [] then []
    else if IsSpace(s[0]) then Fields(s[1..])
    else
      var n := WordLength(s);
      [s[..n]] + Fields(s[n..])
  }

  /** strings.Join(words, " "). */
  function Join(words: seq<string>): string {
    if words == [] then ""
    else if |words| == 1 then words[0]
    else words[0] + " " + Join(words[1..])
  }

  /** normalizePersonName. */
  function Squeeze(s: string): string {
    Join(Fields(s))
  }

  function NormalizeCell(s: string): string {
    var w := Squeeze(s);
    seq(|w|, i requires 0 <= i < |w| => YoToYe(Lower(w[i])))
  }

  function NormalizeLabel(s: string): (r: string) {
    var w := NormalizeCell(s);
    seq(|w|, i requires 0 <= i < |w| => LookAlike(w[i]))
  }

  lemma WordLengthAcross(a: string, c: char, b: string)
    requires IsSpace(c)
    ensures WordLength(a + [c] + b) == WordLength(a)
  {
    if a != [] && !IsSpace(a[0]) {
      assert (a + [c] + b)[1..] == a[1..] + [c] + b;
    }
  }

  /** White space separates words and nothing else. */
  lemma {:induction false} FieldsAcross(a: string, c: char, b: string)
    requires IsSpace(c)
    ensures Fields(a + [c] + b) == Fields(a) + Fields(b)
    decreases |a|
  {
    var s := a + [c] + b;
    if a == [] {
      assert s[1..] == b;
    } else if IsSpace(a[0]) {
      assert s[1..] == a[1..] + [c] + b;
      FieldsAcross(a[1..], c, b);
    } else {
      var n := WordLength(a);
      WordLengthAcross(a, c, b);
      assert s[..n] == a[..n] && s[n..] == a[n..] + [c] + b;
      FieldsAcross(a[n..], c, b);
    }
  }

  lemma FieldsOfWord(s: string)
    requires NoSpace(s)
    ensures Fields(s) == if s == [] then [] else [s]
  {
    if s != [] {
      var n := WordLength(s);
      assert n == |s| && s[..n] == s;
    }
  }

  /** Joining words and splitting again gives the words back. */
  lemma {:induction false} FieldsOfJoin(words: seq<string>)
    requires forall w :: w in words ==> IsWord(w)
    ensures Fields(Join(words)) == words
  {
    if words != [] {
      assert IsWord(words[0]) && words == [words[0]] + words[1..];
    }
    if |words| == 1 {
      FieldsOfWord(words[0]);
    } else if |words| > 1 {
      FieldsAcross(words[0], ' ', Join(words[1..]));
      FieldsOfWord(words[0]);
      FieldsOfJoin(words[1..]);
    }
  }

  lemma SqueezeOfWord(s: string)
    requires NoSpace(s)
    ensures Squeeze(s) == s
  {
    FieldsOfWord(s);
  }

  lemma {:induction false} SqueezeIsShorter(s: string)
    ensures |Squeeze(s)| <= |s|
    decreases |s|
  {
    if s != [] {
      if IsSpace(s[0]) {
        SqueezeIsShorter(s[1..]);
      } else {
        var n := WordLength(s);
        SqueezeIsShorter(s[n..]);
        if n < |s| {
          SqueezeIsShorter(s[n + 1..]);
          assert s[n..][1..] == s[n + 1..];
        }
      }
    }
  }

  /** The only white space a squeezed string keeps is the single blank. */
  lemma {:induction false} JoinBlanks(words: seq<string>)
    requires forall w :: w in words ==> IsWord(w)
    ensures forall i :: 0 <= i < |Join(words)| && IsSpace(Join(words)[i]) ==> Join(words)[i] == ' '
  {
    if words != [] {
      assert IsWord(words[0]);
      if |words| > 1 {
        JoinBlanks(words[1..]);
      }
    }
  }

  lemma NormalizedBlanks(s: string)
    ensures |NormalizeLabel(s)| <= |s|
    ensures forall i :: 0 <= i < |NormalizeLabel(s)| && IsSpace(NormalizeLabel(s)[i]) ==> NormalizeLabel(s)[i] == ' '
  {
    SqueezeIsShorter(s);
    JoinBlanks(Fields(s));
  }

  /** A label normalises to itself exactly when each of its characters does, if it has no white space. */
  lemma NormalizeWordLabel(s: string)
    requires NoSpace(s)
    ensures |NormalizeLabel(s)| == |s| && forall i :: 0 <= i < |s| ==> NormalizeLabel(s)[i] == LabelChar(s[i])
  {
    SqueezeOfWord(s);
  }

  /** The same letter: in either case, and е for ё. */
  predicate Alike(c: char, d: char) {
    c == d || {c, d} <= {'Е', 'е', 'Ё', 'ё'} || CaseOf(c, d) || CaseOf(d, c)
  }

  predicate CaseOf(upper: char, lower: char) {
    (('A' <= upper <= 'Z' || 'А' <= upper <= 'Я') && lower as int == upper as int + 32)
    || ('\U{0400}' <= upper <= '\U{040F}' && lower as int == upper as int + 80)
  }

  lemma AlikeExactly(c: char, d: char)
    ensures YoToYe(Lower(c)) == YoToYe(Lower(d)) <==> Alike(c, d)
  {
  }

  /** Two words normalise alike exactly when they differ in letter case and in ё for е only. */
  lemma NormalizedAlike(a: string, b: string)
    requires NoSpace(a) && NoSpace(b)
    ensures NormalizeCell(a) == NormalizeCell(b) <==> |a| == |b| && forall i :: 0 <= i < |a| ==> Alike(a[i], b[i])
  {
    SqueezeOfWord(a);
    SqueezeOfWord(b);
    hide Squeeze, Lower, YoToYe, Alike;
    var x, y := NormalizeCell(a), NormalizeCell(b);
    assert |x| == |a| && |y| == |b|;
    forall i | 0 <= i < |a| && i < |b| ensures x[i] == y[i] <==> Alike(a[i], b[i]) {
      AlikeExactly(a[i], b[i]);
    }
  }

  /** The Cyrillic letters that look like Latin ones are taken for them in labels. */
  lemma LookAlikes(word: string, i: nat)
    requires NoSpace(word) && i < |word| && word[i] in "авсекмнортух"
    ensures |NormalizeLabel(word)| == |word|
    ensures exists k: nat :: k < 12 && "авсекмнортух"[k] == word[i] && NormalizeLabel(word)[i] == "abcekmhoptyx"[k]
  {
    NormalizeWordLabel(word);
    hide NormalizeLabel, Squeeze;
    var k: nat :| k < 12 && "авсекмнортух"[k] == word[i];
    assert LabelChar(word[i]) == "abcekmhoptyx"[k];
  }

  /** Normalising a label twice is normalising it once, when no white space is left inside. */
  lemma NormalizeLabelIsIdempotent(s: string)
    requires ' ' !in NormalizeLabel(s)
    ensures NoSpace(NormalizeLabel(s)) && NormalizeLabel(NormalizeLabel(s)) == NormalizeLabel(s)
  {
    NormalizedBlanks(s);
    NormalizeWordLabel(NormalizeLabel(s));
  }

  // ---- trimming ----

  function TrimLeft(s: string): string {
    if s != [] && IsSpace(s[0]) then TrimLeft(s[1..]) else s
  }

  function TrimRight(s: string): string {
    if s != [] && IsSpace(s[|s| - 1]) then TrimRight(s[..|s| - 1]) else s
  }

  /** strings.TrimSpace. */
  function Trim(s: string): string {
    TrimRight(TrimLeft(s))
  }

  function RemoveBlanks(s: string): string {
    if s == [] then [] else if s[0] == ' ' then RemoveBlanks(s[1..]) else [s[0]] + RemoveBlanks(s[1..])
  }

  /** strings.ReplaceAll(strings.TrimSpace(s), " ", ""). */
  function Compact(s: string): string {
    RemoveBlanks(Trim(s))
  }

  lemma TrimRightAfter(a: string, b: string)
    requires a != [] && !IsSpace(a[|a| - 1])
    ensures TrimRight(a + b) == a + TrimRight(b)
  {
    if b == [] {
      assert a + b == a;
    } else if IsSpace(b[|b| - 1]) {
      assert (a + b)[..|a + b| - 1] == a + b[..|b| - 1];
      TrimRightAfter(a, b[..|b| - 1]);
    }
  }

  lemma RemoveBlanksAfter(a: string, b: string)
    requires NoSpace(a)
    ensures RemoveBlanks(a + b) == a + RemoveBlanks(b)
  {
    if a == [] {
      assert a + b == b;
    } else {
      assert (a + b)[1..] == a[1..] + b;
      RemoveBlanksAfter(a[1..], b);
    }
  }

  lemma RemoveBlanksShorter(s: string)
    ensures |RemoveBlanks(s)| <= |s|
    ensures ' ' in s ==> |RemoveBlanks(s)| < |s|
    ensures ' ' !in s ==> RemoveBlanks(s) == s
  {
  }

  lemma TrimRightShorter(s: string)
    ensures |TrimRight(s)| <= |s|
    ensures |TrimRight(s)| == |s| ==> TrimRight(s) == s
    ensures NoSpace(s) ==> TrimRight(s) == s
  {
  }

  /** A word in front survives compaction; what follows it loses at least one character per blank. */
  lemma CompactAfter(a: string, b: string) returns (rest: string)
    requires IsWord(a)
    ensures Compact(a + b) == a + rest && |rest| <= |b|
    ensures |rest| == |b| ==> ' ' !in b
    ensures ' ' !in b && (b != [] ==> !IsSpace(b[|b| - 1])) ==> rest == b
  {
    assert !IsSpace((a + b)[0]);
    TrimRightAfter(a, b);
    RemoveBlanksAfter(a, TrimRight(b));
    rest := RemoveBlanks(TrimRight(b));
    TrimRightShorter(b);
    RemoveBlanksShorter(TrimRight(b));
  }

  /** strings.TrimSpace removes white space at both ends and nothing else. */
  lemma TrimExactly(s: string) returns (a: string, b: string)
    ensures s == a + Trim(s) + b
    ensures (forall i :: 0 <= i < |a| ==> IsSpace(a[i])) && forall i :: 0 <= i < |b| ==> IsSpace(b[i])
    ensures Trim(s) != "" ==> !IsSpace(Trim(s)[0]) && !IsSpace(Trim(s)[|Trim(s)| - 1])
  {
    var left, rest := TrimLeftExactly(s);
    var right := TrimRightExactly(rest);
    a, b := left, right;
    assert rest == Trim(s) + b;
    hide TrimLeft, TrimRight;
    assert s == a + (Trim(s) + b);
    if Trim(s) != "" {
      assert rest[0] == Trim(s)[0];
    }
  }

  lemma {:induction false} TrimLeftExactly(s: string) returns (a: string, rest: string)
    ensures rest == TrimLeft(s) && s == a + rest && forall i :: 0 <= i < |a| ==> IsSpace(a[i])
    ensures rest != "" ==> !IsSpace(rest[0])
  {
    if s != [] && IsSpace(s[0]) {
      var more;
      more, rest := TrimLeftExactly(s[1..]);
      a := [s[0]] + more;
    } else {
      a, rest := "", s;
    }
  }

  lemma {:induction false} TrimRightExactly(s: string) returns (b: string)
    ensures s == TrimRight(s) + b && forall i :: 0 <= i < |b| ==> IsSpace(b[i])
    ensures TrimRight(s) != "" ==> !IsSpace(TrimRight(s)[|TrimRight(s)| - 1])
  {
    if s != [] && IsSpace(s[|s| - 1]) {
      var more := TrimRightExactly(s[..|s| - 1]);
      b := more + [s[|s| - 1]];
    } else {
      b := "";
    }
  }

  /** Compacting joins the blank-free pieces of the trimmed text. */
  lemma {:induction false} RemoveBlanksExactly(a: string, b: string)
    ensures RemoveBlanks(a + b) == RemoveBlanks(a) + RemoveBlanks(b)
    ensures ' ' !in RemoveBlanks(a) && RemoveBlanks(" ") == "" && (' ' !in a ==> RemoveBlanks(a) == a)
  {
    if a == [] {
      assert a + b == b;
    } else {
      assert (a + b)[1..] == a[1..] + b;
      RemoveBlanksExactly(a[1..], b);
    }
  }

  // ---- decimal numbers ----

  const MAX_INT64 := 0x7fff_ffff_ffff_ffff

  predicate AllDigits(s: string) {
    forall i :: 0 <= i < |s| ==> IsDigit(s[i])
  }

  function Digit(d: nat): (c: char)
    requires d < 10
    ensures IsDigit(c) && c as int - '0' as int == d
  {
    (d + '0' as int) as char
  }

  /** strconv.Itoa of a natural number. */
  function Itoa(n: nat): (s: string)
    ensures s != [] && AllDigits(s) && (n > 0 ==> s[0] != '0')
  {
    if n < 10 then [Digit(n)] else Itoa(n / 10) + [Digit(n % 10)]
  }

  function NumberOf(s: string): nat
    requires AllDigits(s)
  {
    if s == [] then 0 else 10 * NumberOf(s[..|s| - 1]) + (s[|s| - 1] as int - '0' as int)
  }

  lemma {:induction false} NumberOfItoa(n: nat)
    ensures NumberOf(Itoa(n)) == n
  {
    if n >= 10 {
      NumberOfItoa(n / 10);
      assert Itoa(n)[..|Itoa(n)| - 1] == Itoa(n / 10);
    }
  }

  /** Length of the longest prefix of digits. */
  function LeadingDigits(s: string): (k: nat)
    ensures k <= |s| && AllDigits(s[..k]) && (k < |s| ==> !IsDigit(s[k]))
  {
    if s == [] || !IsDigit(s[0]) then 0 else 1 + LeadingDigits(s[1..])
  }

  lemma LeadingDigitsAfter(a: string, b: string)
    requires AllDigits(a)
    ensures LeadingDigits(a + b) == |a| + LeadingDigits(b)
  {
    if a == [] {
      assert a + b == b;
    } else {
      assert (a + b)[1..] == a[1..] + b;
      LeadingDigitsAfter(a[1..], b);
    }
  }
}
