/**
  The handful of Python built-ins the PBM reader leans on, with CPython's
  semantics: str.strip, bytes.strip, str.split() without a separator,
  int() on a base-10 string, bytes.find, bytes.decode('ascii') and
  str.startswith.
 */
module PyBuiltins {

  datatype Option<+T> = None | Some(value: T)

  /** A Python `bytes` element */
  newtype Byte = b: int | 0 <= b < 256

  /** str.isspace() for one character: CPython's whitespace set */
  predicate IsSpace(c: char) {
    var n := c as int;
    (9 <= n <= 13) || (0x1C <= n <= 0x20) || n == 0x85 || n == 0xA0 || n == 0x1680
    || (0x2000 <= n <= 0x200A) || n == 0x2028 || n == 0x2029 || n == 0x202F
    || n == 0x205F || n == 0x3000
  }

  /** The bytes that bytes.strip() removes: space, \t, \n, \v, \f, \r */
  predicate IsByteSpace(b: Byte) {
    b == 32 || (9 <= b <= 13)
  }

  /** str.lstrip(): drops leading whitespace */
  function LStripText(s: string): (r: string)
    ensures |r| <= |s| && r == s[|s| - |r|..]
    ensures forall i :: 0 <= i < |s| - |r| ==> IsSpace(s[i])
    ensures r != [] ==> !IsSpace(r[0])
  {
    if s != [] && IsSpace(s[0]) then LStripText(s[1..]) else s
  }

  /** str.rstrip(): drops trailing whitespace */
  function RStripText(s: string): (r: string)
    ensures |r| <= |s| && r == s[..|r|]
    ensures forall i :: |r| <= i < |s| ==> IsSpace(s[i])
    ensures r != [] ==> !IsSpace(r[|r| - 1])
  {
    if s != [] && IsSpace(s[|s| - 1]) then RStripText(s[..|s| - 1]) else s
  }

  /** str.strip() with no argument: a prefix of the lstrip whose dropped tail
      is whitespace, so a slice of `s` with whitespace on both sides that
      neither starts nor ends with whitespace; it is empty exactly when the
      lstrip is, so exactly when `s` is all whitespace (StripTextEmpty) */
  function StripText(s: string): (r: string)
    ensures |r| <= |LStripText(s)| && r == LStripText(s)[..|r|]
    ensures forall i :: |r| <= i < |LStripText(s)| ==> IsSpace(LStripText(s)[i])
    ensures r != [] ==> !IsSpace(r[0]) && !IsSpace(r[|r| - 1])
    ensures r == [] <==> LStripText(s) == []
  {
    RStripText(LStripText(s))
  }

  /** The strip is empty exactly when every character is whitespace */
  lemma StripTextEmpty(s: string)
    ensures StripText(s) == [] <==> forall i :: 0 <= i < |s| ==> IsSpace(s[i])
  {
    var t := LStripText(s);
    assert t != [] ==> !IsSpace(s[|s| - |t|]);
  }

  /** A text with no whitespace at either end is its own strip */
  lemma StripTextUnchanged(s: string)
    requires s != [] && !IsSpace(s[0]) && !IsSpace(s[|s| - 1])
    ensures StripText(s) == s
  {
  }

  /** bytes.lstrip(): drops leading ASCII whitespace */
  function LStripBytes(s: seq<Byte>): (r: seq<Byte>)
    ensures |r| <= |s| && r == s[|s| - |r|..]
    ensures forall i :: 0 <= i < |s| - |r| ==> IsByteSpace(s[i])
    ensures r != [] ==> !IsByteSpace(r[0])
  {
    if s != [] && IsByteSpace(s[0]) then LStripBytes(s[1..]) else s
  }

  /** bytes.rstrip(): drops trailing ASCII whitespace */
  function RStripBytes(s: seq<Byte>): (r: seq<Byte>)
    ensures |r| <= |s| && r == s[..|r|]
    ensures forall i :: |r| <= i < |s| ==> IsByteSpace(s[i])
    ensures r != [] ==> !IsByteSpace(r[|r| - 1])
  {
    if s != [] && IsByteSpace(s[|s| - 1]) then RStripBytes(s[..|s| - 1]) else s
  }

  /** bytes.strip() with no argument: a prefix of the lstrip whose dropped tail
      is ASCII whitespace, so a slice of `s` with ASCII whitespace on both sides that
      neither starts nor ends with ASCII whitespace; it is empty exactly when
      the lstrip is, so exactly when `s` is all ASCII whitespace (StripBytesEmpty) */
  function StripBytes(s: seq<Byte>): (r: seq<Byte>)
    ensures |r| <= |LStripBytes(s)| && r == LStripBytes(s)[..|r|]
    ensures forall i :: |r| <= i < |LStripBytes(s)| ==> IsByteSpace(LStripBytes(s)[i])
    ensures r != [] ==> !IsByteSpace(r[0]) && !IsByteSpace(r[|r| - 1])
    ensures r == [] <==> LStripBytes(s) == []
  {
    RStripBytes(LStripBytes(s))
  }

  /** The strip is empty exactly when every character is ASCII whitespace */
  lemma StripBytesEmpty(s: seq<Byte>)
    ensures StripBytes(s) == [] <==> forall i :: 0 <= i < |s| ==> IsByteSpace(s[i])
  {
    var t := LStripBytes(s);
    assert t != [] ==> !IsByteSpace(s[|s| - |t|]);
  }

  /** Bytes with no whitespace at either end are their own strip */
  lemma StripBytesUnchanged(s: seq<Byte>)
    requires s != [] && !IsByteSpace(s[0]) && !IsByteSpace(s[|s| - 1])
    ensures StripBytes(s) == s
  {
  }

  predicate NoSpace(s: string) {
    forall i :: 0 <= i < |s| ==> !IsSpace(s[i])
  }

  /** Length of the leading run of non-whitespace characters */
  function TokenLength(s: string): (n: nat)
    ensures n <= |s|
    ensures NoSpace(s[..n])
    ensures n < |s| ==> IsSpace(s[n])
  {
    if s == [] || IsSpace(s[0]) then 0 else 1 + TokenLength(s[1..])
  }

  /** str.split() with no separator: the maximal runs of non-whitespace,
      in order; no more fields than characters, and none exactly when the
      text is all whitespace (no token is empty and none holds whitespace:
      SplitWords) */
  function Split(s: string): (r: seq<string>)
    ensures |r| <= |s|
    ensures r == [] <==> LStripText(s) == []
    decreases |s|
  {
    var t := LStripText(s);
    if t == [] then []
    else
      var n := TokenLength(t);
      [t[..n]] + Split(t[n..])
  }

  /** No token is empty and none holds whitespace */
  lemma {:induction false} SplitWords(s: string)
    ensures forall k :: 0 <= k < |Split(s)| ==> IsWord(Split(s)[k])
    decreases |s|
  {
    var t := LStripText(s);
    if t != [] {
      var n := TokenLength(t);
      var word, rest := t[..n], Split(t[n..]);
      LeadingToken(t, n, word);
      SplitWords(t[n..]);
      assert Split(s) == [word] + rest;
      WordsPrepend(word, rest);
    }
  }

  /** A token of str.split(): not empty, no whitespace */
  predicate IsWord(w: string) {
    w != [] && NoSpace(w)
  }

  lemma WordsPrepend(word: string, rest: seq<string>)
    requires IsWord(word)
    requires forall k :: 0 <= k < |rest| ==> IsWord(rest[k])
    ensures forall k :: 0 <= k < |rest| + 1 ==> IsWord(([word] + rest)[k])
  {
    forall k | 0 <= k < |rest| + 1 ensures IsWord(([word] + rest)[k]) {
      if k > 0 {
        assert ([word] + rest)[k] == rest[k - 1];
      }
    }
  }

  /** The leading run of a string that does not start with whitespace is a
      word */
  lemma LeadingToken(t: string, n: nat, word: string)
    requires t != [] && LStripText(t) == t
    requires n == TokenLength(t) && word == t[..n]
    ensures IsWord(word)
  {
    assert !IsSpace(t[0]);
  }

  /** Two whitespace-free words joined by one space split back into the
      two words */
  lemma SplitTwoWords(a: string, b: string, sb: string, s: string)
    requires a != [] && b != [] && NoSpace(a) && NoSpace(b)
    requires sb == [' '] + b && s == a + sb
    ensures Split(s) == [a, b]
  {
    assert Split(sb) == [b] by {
      SplitSpacedWord(b, sb);
    }
    assert Split(s) == [a] + Split(sb) by {
      SplitLeadingWord(a, sb, s);
    }
  }

  /** One space and a whitespace-free word split into that word */
  lemma SplitSpacedWord(b: string, sb: string)
    requires b != [] && NoSpace(b) && sb == [' '] + b
    ensures Split(sb) == [b]
  {
    SplitLeadingSpace(' ', b, sb);
    SplitOneWord(b);
  }

  /** A whitespace-free word is its own only token */
  lemma SplitOneWord(b: string)
    requires b != [] && NoSpace(b)
    ensures Split(b) == [b]
  {
    var e: string := [];
    assert b == b + e;
    SplitLeadingWord(b, e, b);
    assert Split(e) == [];
  }

  /** Leading whitespace does not change the tokens */
  lemma SplitLeadingSpace(c: char, rest: string, s: string)
    requires IsSpace(c) && s == [c] + rest
    ensures Split(s) == Split(rest)
  {
    assert s[1..] == rest;
    assert LStripText(s) == LStripText(rest);
  }

  /** A leading word followed by whitespace or the end is the first token */
  lemma SplitLeadingWord(a: string, rest: string, s: string)
    requires a != [] && NoSpace(a)
    requires rest == [] || IsSpace(rest[0])
    requires s == a + rest
    ensures Split(s) == [a] + Split(rest)
  {
    assert LStripText(s) == s by { assert !IsSpace(s[0]); }
    assert TokenLength(s) == |a| by {
      TokenLengthOfWord(a, rest);
    }
    assert s[..|a|] == a && s[|a|..] == rest;
  }

  lemma {:induction false} TokenLengthOfWord(a: string, rest: string)
    requires NoSpace(a)
    requires rest == [] || IsSpace(rest[0])
    ensures TokenLength(a + rest) == |a|
    decreases |a|
  {
    if a != [] {
      assert (a + rest)[1..] == a[1..] + rest;
      TokenLengthOfWord(a[1..], rest);
    } else {
      assert a + rest == rest;
    }
  }

  predicate IsDigit(c: char) {
    '0' <= c <= '9'
  }

  /** The digit part int() accepts: ASCII digits, with single underscores
      allowed between two digits */
  predicate IsDigitString(s: string) {
    |s| > 0 && IsDigit(s[0]) &&
    (|s| == 1 || if s[1] == '_' then IsDigitString(s[2..]) else IsDigitString(s[1..]))
  }

  predicate AllDigits(s: string) {
    forall i :: 0 <= i < |s| ==> IsDigit(s[i])
  }

  lemma {:induction false} AllDigitsAccepted(s: string)
    requires s != [] && AllDigits(s)
    ensures IsDigitString(s)
  {
    if |s| > 1 {
      AllDigitsAccepted(s[1..]);
    }
  }

  /** The value of a digit string, underscores ignored */
  function DigitsValue(s: string): nat {
    if s == [] then 0
    else
      var last := s[|s| - 1];
      if IsDigit(last) then 10 * DigitsValue(s[..|s| - 1]) + (last as int - '0' as int)
      else DigitsValue(s[..|s| - 1])
  }

  /** The whitespace int() skips around the numeral: among ASCII
      characters only space, \t, \n, \v, \f and \r (so not \x1c to \x1f,
      which str.isspace() accepts); beyond ASCII, what str.isspace()
      accepts */
  predicate IsIntSpace(c: char) {
    if c as int < 128 then c == ' ' || '\t' <= c <= '\r' else IsSpace(c)
  }

  /** int() dropping the whitespace it skips at both ends */
  function IntStrip(s: string): (r: string)
    ensures |r| <= |s|
    ensures r != [] ==> !IsIntSpace(r[0]) && !IsIntSpace(r[|r| - 1])
    decreases |s|
  {
    if s != [] && IsIntSpace(s[0]) then IntStrip(s[1..])
    else if s != [] && IsIntSpace(s[|s| - 1]) then IntStrip(s[..|s| - 1])
    else s
  }

  /** What int() strips is a slice of its argument with only the
      whitespace int() skips outside it */
  lemma {:induction false} IntStripSlice(s: string) returns (i: nat, j: nat)
    ensures i <= j <= |s| && IntStrip(s) == s[i..j]
    ensures forall k :: 0 <= k < i ==> IsIntSpace(s[k])
    ensures forall k :: j <= k < |s| ==> IsIntSpace(s[k])
    decreases |s|
  {
    if s != [] && IsIntSpace(s[0]) {
      var tail := s[1..];
      var i', j' := IntStripSlice(tail);
      i, j := i' + 1, j' + 1;
      assert tail[i'..j'] == s[i..j];
      forall k | 0 <= k < i ensures IsIntSpace(s[k]) {
        if k > 0 {
          assert s[k] == tail[k - 1];
        }
      }
      forall k | j <= k < |s| ensures IsIntSpace(s[k]) {
        assert s[k] == tail[k - 1];
      }
    } else if s != [] && IsIntSpace(s[|s| - 1]) {
      var init := s[..|s| - 1];
      i, j := IntStripSlice(init);
      assert init[i..j] == s[i..j];
      assert i == 0 by {
        assert init[0] == s[0];
      }
      forall k | j <= k < |s| ensures IsIntSpace(s[k]) {
        if k < |s| - 1 {
          assert s[k] == init[k];
        }
      }
    } else {
      i, j := 0, |s|;
    }
  }

  /** int(s) on a str: None where CPython raises ValueError; a blank
      string is refused, and a negative value needs a leading '-' */
  function ParseInt(s: string): (r: Option<int>)
    ensures IntStrip(s) == [] ==> r == None
    ensures r.Some? && r.value < 0 ==> IntStrip(s)[0] == '-'
  {
    var t := IntStrip(s);
    if |t| > 0 && (t[0] == '+' || t[0] == '-') then
      if IsDigitString(t[1..]) then
        var v: int := DigitsValue(t[1..]);
        Some(if t[0] == '-' then -v else v)
      else None
    else if IsDigitString(t) then Some(DigitsValue(t))
    else None
  }

  /** str(n) for a natural number: the shortest decimal numeral */
  function Decimal(n: nat): (s: string)
    ensures s != [] && AllDigits(s)
    ensures DigitsValue(s) == n
  {
    if n < 10 then [('0' as int + n) as char]
    else
      var s := Decimal(n / 10) + [('0' as int + n % 10) as char];
      assert s[..|s| - 1] == Decimal(n / 10);
      s
  }

  /** int(str(n)) == n */
  lemma ParseDecimal(n: nat)
    ensures ParseInt(Decimal(n)) == Some(n)
  {
    var s := Decimal(n);
    assert IntStrip(s) == s by {
      assert IsDigit(s[0]) && IsDigit(s[|s| - 1]);
    }
    AllDigitsAccepted(s);
  }

  /** int("-" + str(n)) == -n, so negative numerals read back too */
  lemma ParseNegativeDecimal(n: nat)
    ensures ParseInt("-" + Decimal(n)) == Some(-(n as int))
  {
    var d := Decimal(n);
    var s := "-" + d;
    assert IntStrip(s) == s by {
      assert s[0] == '-' && s[|s| - 1] == d[|d| - 1] && IsDigit(d[|d| - 1]);
    }
    assert s[1..] == d;
    AllDigitsAccepted(d);
  }

  /** str.startswith(prefix) */
  predicate StartsWith(s: string, prefix: string) {
    prefix <= s
  }

  /** bytes.decode('ascii'): fails exactly when some byte is not ASCII,
      and otherwise maps each byte to the character with the same code */
  function DecodeAscii(b: seq<Byte>): (r: Option<string>)
    ensures r.Some? <==> forall i :: 0 <= i < |b| ==> b[i] < 128
    ensures r.Some? ==> |r.value| == |b| && forall i :: 0 <= i < |b| ==> r.value[i] as int == b[i] as int
  {
    if forall i :: 0 <= i < |b| ==> b[i] < 128 then
      Some(seq(|b|, i requires 0 <= i < |b| => b[i] as int as char))
    else None
  }

  predicate IsAsciiText(s: string) {
    forall i :: 0 <= i < |s| ==> s[i] as int < 128
  }

  /** str.encode('ascii') */
  function EncodeAscii(s: string): (b: seq<Byte>)
    requires IsAsciiText(s)
    ensures |b| == |s| && forall i :: 0 <= i < |s| ==> b[i] as int == s[i] as int
  {
    seq(|s|, i requires 0 <= i < |s| => s[i] as int as Byte)
  }

  /** Decoding what was encoded gives back the text */
  lemma DecodeEncodeAscii(s: string)
    requires IsAsciiText(s)
    ensures DecodeAscii(EncodeAscii(s)) == Some(s)
  {
    var r := DecodeAscii(EncodeAscii(s));
    assert r.Some?;
    assert r.value == s;
  }

  /** bytes.find(v, start): the first index at or after `start` that holds
      `v`, or -1 when there is none */
  function Find(s: seq<Byte>, v: Byte, start: nat): (r: int)
    requires start <= |s|
    ensures r == -1 || start <= r < |s|
    ensures r == -1 <==> forall i :: start <= i < |s| ==> s[i] != v
    ensures r != -1 ==> s[r] == v && forall i :: start <= i < r ==> s[i] != v
    decreases |s| - start
  {
    if start == |s| then -1
    else if s[start] == v then start
    else Find(s, v, start + 1)
  }

  /** Python's s[a:b] for any integers a and b: negative indices count
      from the end and both ends are clamped to the sequence */
  function PySlice<T>(s: seq<T>, a: int, b: int): (r: seq<T>)
    ensures 0 <= a <= b ==> r == s[Clamp(a, |s|)..Clamp(b, |s|)]
  {
    var i := Clamp(a, |s|);
    var j := Clamp(b, |s|);
    if i < j then s[i..j] else []
  }

  function Clamp(i: int, n: nat): (k: nat)
    ensures k <= n
    ensures 0 <= i <= n ==> k == i
  {
    if i < 0 then (if i + n < 0 then 0 else i + n)
    else if i > n then n
    else i
  }

  /** Multiplying by a non-negative factor keeps the order, on either side */
  lemma MulMonotone(a: int, b: int, s: int)
    requires a <= b && s >= 0
    ensures a * s <= b * s && s * a <= s * b
  {
  }
}
