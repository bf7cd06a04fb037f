/**
 The application/x-www-form-urlencoded serializer of section 5.2 of the WHATWG
 URL Standard, which `URLSearchParams.prototype.toString()` runs: every name
 and value is UTF-8 encoded and percent-encoded with the
 application/x-www-form-urlencoded percent-encode set (section 1.3), a space
 becoming `+`; the pairs are written `name=value` and joined with `&`.

 Beside the serializer stand a splitter for the serialized form and the
 proof that it takes a serialization apart into exactly the encoded pairs
 that went in: since the encoder never writes `&` or `=`, the query string
 is unambiguous.
 */
module FormUrlEncoded {

  /** The bytes the encoder leaves as they are: ASCII alphanumerics, `*`, `-`, `.` and `_`.
      Every other byte is in the application/x-www-form-urlencoded percent-encode set. */
  predicate IsUnreservedByte(b: int) {
    (0x30 <= b <= 0x39) || (0x41 <= b <= 0x5A) || (0x61 <= b <= 0x7A) ||
    b == 0x2A || b == 0x2D || b == 0x2E || b == 0x5F
  }

  predicate IsUnreserved(c: char) {
    IsUnreservedByte(c as int)
  }

  /** Every character the serializer can write. */
  predicate IsEncodedChar(c: char) {
    IsUnreserved(c) || c == '+' || c == '%'
  }

  /** The UTF-8 encoding of one Unicode scalar value (section 3.9 of the Unicode Standard). */
  function Utf8(c: char): (bytes: seq<int>)
    ensures 1 <= |bytes| <= 4
    ensures forall i :: 0 <= i < |bytes| ==> 0 <= bytes[i] < 0x100
    ensures c as int < 0x80 ==> bytes == [c as int]
    ensures c as int >= 0x80 ==> forall i :: 0 <= i < |bytes| ==> bytes[i] >= 0x80
  {
    var n := c as int;
    if n < 0x80 then [n]
    else if n < 0x800 then [0xC0 + n / 0x40, 0x80 + n % 0x40]
    else if n < 0x1_0000 then [0xE0 + n / 0x1000, 0x80 + (n / 0x40) % 0x40, 0x80 + n % 0x40]
    else [0xF0 + n / 0x4_0000, 0x80 + (n / 0x1000) % 0x40, 0x80 + (n / 0x40) % 0x40, 0x80 + n % 0x40]
  }

  /** The scalar value a well-formed UTF-8 sequence of one to four bytes stands for. */
  function Utf8Value(bytes: seq<int>): int
    requires 1 <= |bytes| <= 4
  {
    if |bytes| == 1 then bytes[0]
    else if |bytes| == 2 then (bytes[0] - 0xC0) * 0x40 + (bytes[1] - 0x80)
    else if |bytes| == 3 then (bytes[0] - 0xE0) * 0x1000 + (bytes[1] - 0x80) * 0x40 + (bytes[2] - 0x80)
    else (bytes[0] - 0xF0) * 0x4_0000 + (bytes[1] - 0x80) * 0x1000 + (bytes[2] - 0x80) * 0x40 + (bytes[3] - 0x80)
  }

  /** Decoding the UTF-8 bytes gives back the scalar value, and the shortest form is used. */
  lemma Utf8RoundTrip(c: char)
    ensures Utf8Value(Utf8(c)) == c as int
    ensures |Utf8(c)| == (if c as int < 0x80 then 1 else if c as int < 0x800 then 2
                          else if c as int < 0x1_0000 then 3 else 4)
  {
    var n := c as int;
    var q1, r0 := n / 0x40, n % 0x40;
    var q2, r1 := q1 / 0x40, q1 % 0x40;
    var q3, r2 := q2 / 0x40, q2 % 0x40;
    assert n == 0x40 * q1 + r0;
    assert q1 == 0x40 * q2 + r1;
    assert q2 == 0x40 * q3 + r2;
    if 0x800 <= n < 0x1_0000 {
      assert n / 0x1000 == q2;
    } else if n >= 0x1_0000 {
      assert n / 0x1000 == q2;
      assert n / 0x4_0000 == q3;
    }
  }

  /** The characters `0`-`9` and `A`-`F`. */
  predicate IsHexDigit(c: char) {
    ('0' <= c <= '9') || ('A' <= c <= 'F')
  }

  /** The value an upper-case hexadecimal digit stands for. */
  function HexValue(c: char): (v: int)
    requires IsHexDigit(c)
    ensures 0 <= v < 16
  {
    if c <= '9' then c as int - '0' as int else c as int - 'A' as int + 10
  }

  /** An upper-case hexadecimal digit, as percent-encoding writes it; reading it back gives `d`. */
  function HexDigit(d: int): (c: char)
    requires 0 <= d < 16
    ensures IsUnreserved(c) && IsHexDigit(c)
    ensures HexValue(c) == d
  {
    if d < 10 then ('0' as int + d) as char else ('A' as int + (d - 10)) as char
  }

  /** `%` followed by the byte as two upper-case hexadecimal digits, high digit first
      (section 1.3 of the WHATWG URL Standard). */
  function PercentEncodeByte(b: int): (s: string)
    requires 0 <= b < 0x100
    ensures |s| == 3 && s[0] == '%'
    ensures IsHexDigit(s[1]) && IsHexDigit(s[2])
    ensures 16 * HexValue(s[1]) + HexValue(s[2]) == b
    ensures forall i :: 0 <= i < |s| ==> IsEncodedChar(s[i])
  {
    ['%', HexDigit(b / 16), HexDigit(b % 16)]
  }

  /** The bytes of one code point after percent-encoding. */
  function EncodeBytes(bytes: seq<int>): (s: string)
    requires forall i :: 0 <= i < |bytes| ==> 0 <= bytes[i] < 0x100
    ensures forall i :: 0 <= i < |s| ==> IsEncodedChar(s[i])
  {
    if bytes == [] then []
    else
      var b := bytes[0];
      (if IsUnreservedByte(b) then [b as char] else PercentEncodeByte(b)) + EncodeBytes(bytes[1..])
  }

  lemma EncodeSingleByte(bytes: seq<int>)
    requires |bytes| == 1 && 0 <= bytes[0] < 0x100
    ensures EncodeBytes(bytes) ==
      if IsUnreservedByte(bytes[0]) then [bytes[0] as char] else PercentEncodeByte(bytes[0])
  {
    assert bytes[1..] == [];
  }

  /** Percent-encode after encoding (section 1.3 of the WHATWG URL Standard), one code point,
      with space as plus. */
  function EncodeChar(c: char): (s: string)
    ensures c == ' ' ==> s == "+"
    ensures !IsUnreserved(c) && c != ' ' ==> |s| >= 3 && s[0] == '%'
    ensures forall i :: 0 <= i < |s| ==> IsEncodedChar(s[i])
  {
    if c == ' ' then "+" else EncodeBytes(Utf8(c))
  }

  /** An unreserved character is written as it is. */
  lemma EncodeCharUnreserved(c: char)
    requires IsUnreserved(c)
    ensures EncodeChar(c) == [c]
  {
    EncodeSingleByte(Utf8(c));
  }

  /** Percent-encode after encoding, a whole string. */
  function Encode(s: string): string {
    Concat(seq(|s|, i requires 0 <= i < |s| => EncodeChar(s[i])))
  }

  /** The strings of `parts`, one after the other. */
  function Concat(parts: seq<string>): string {
    if parts == [] then [] else parts[0] + Concat(parts[1..])
  }

  lemma {:induction false} ConcatSingletons(parts: seq<string>, s: string)
    requires |parts| == |s|
    requires forall i :: 0 <= i < |s| ==> parts[i] == [s[i]]
    ensures Concat(parts) == s
  {
    if s != [] {
      ConcatSingletons(parts[1..], s[1..]);
      assert s == [s[0]] + s[1..];
    }
  }

  lemma {:induction false} ConcatEncodedChars(parts: seq<string>)
    requires forall i, j :: 0 <= i < |parts| && 0 <= j < |parts[i]| ==> IsEncodedChar(parts[i][j])
    ensures forall k :: 0 <= k < |Concat(parts)| ==> IsEncodedChar(Concat(parts)[k])
  {
    if parts != [] {
      ConcatEncodedChars(parts[1..]);
      var head, tail := parts[0], Concat(parts[1..]);
      forall k | 0 <= k < |head + tail| ensures IsEncodedChar((head + tail)[k]) {
        if k < |head| {
          assert (head + tail)[k] == parts[0][k];
        } else {
          assert (head + tail)[k] == tail[k - |head|];
        }
      }
    }
  }

  /** On ASCII alphanumerics, `*`, `-`, `.` and `_` the encoder is the identity. */
  lemma EncodeUnreserved(s: string)
    requires forall i :: 0 <= i < |s| ==> IsUnreserved(s[i])
    ensures Encode(s) == s
  {
    var parts := seq(|s|, i requires 0 <= i < |s| => EncodeChar(s[i]));
    forall i | 0 <= i < |s| ensures parts[i] == [s[i]] {
      EncodeCharUnreserved(s[i]);
    }
    ConcatSingletons(parts, s);
  }

  /** The encoder writes only unreserved characters, `+` and `%`. */
  lemma EncodeWritesEncodedChars(s: string)
    ensures forall i :: 0 <= i < |Encode(s)| ==> IsEncodedChar(Encode(s)[i])
  {
    var parts := seq(|s|, i requires 0 <= i < |s| => EncodeChar(s[i]));
    ConcatEncodedChars(parts);
  }

  /** The encoder never writes the separators of the serialized form. */
  lemma EncodeHasNoSeparators(s: string)
    ensures '&' !in Encode(s) && '=' !in Encode(s)
  {
    EncodeWritesEncodedChars(s);
  }

  /** The loop of the serializer of section 5.2 of the WHATWG URL Standard over the already
      encoded `name=value` strings:
      `&` goes before a pair only when the output so far is not empty. */
  function AppendPairs(output: string, encoded: seq<string>): string
    decreases |encoded|
  {
    if encoded == [] then output
    else AppendPairs((if output != [] then output + "&" else output) + encoded[0], encoded[1..])
  }

  /** `URLSearchParams.prototype.toString()`. */
  function Serialize(pairs: seq<(string, string)>): string {
    AppendPairs("", EncodedPairs(pairs))
  }

  /** `name=value`: the name encoded, followed by `=`, followed by the value encoded. */
  function EncodedPair(p: (string, string)): string {
    Encode(p.0) + "=" + Encode(p.1)
  }

  /** A pair whose name needs no encoding. */
  lemma EncodedPairPlainName(name: string, value: string)
    requires forall i :: 0 <= i < |name| ==> IsUnreserved(name[i])
    ensures EncodedPair((name, value)) == name + "=" + Encode(value)
  {
    EncodeUnreserved(name);
  }

  function EncodedPairs(pairs: seq<(string, string)>): seq<string> {
    seq(|pairs|, i requires 0 <= i < |pairs| => EncodedPair(pairs[i]))
  }

  /** The strings of `xs` with `sep` between each two. */
  function Join(xs: seq<string>, sep: char): string {
    if xs == [] then []
    else if |xs| == 1 then xs[0]
    else xs[0] + [sep] + Join(xs[1..], sep)
  }

  lemma JoinCons(x: string, xs: seq<string>, sep: char)
    ensures Join([x] + xs, sep) == if xs == [] then x else x + [sep] + Join(xs, sep)
  {
    assert ([x] + xs)[0] == x;
    assert ([x] + xs)[1..] == xs;
  }

  /** The serializer's loop joins non-empty strings with `&`. */
  lemma {:induction false} AppendPairsIsJoin(output: string, encoded: seq<string>)
    requires encoded != []
    requires forall i :: 0 <= i < |encoded| ==> encoded[i] != []
    ensures AppendPairs(output, encoded) ==
      (if output != [] then output + "&" else output) + Join(encoded, '&')
    decreases |encoded|
  {
    var lead := if output != [] then output + "&" else output;
    var first, tail := encoded[0], encoded[1..];
    var output' := lead + first;
    assert encoded == [first] + tail;
    JoinCons(first, tail, '&');
    if tail != [] {
      assert output' != [] by {
        assert |output'| >= |first| >= 1;
      }
      AppendPairsIsJoin(output', tail);
      assert lead + (first + "&" + Join(tail, '&')) == output' + "&" + Join(tail, '&');
    }
  }

  lemma SerializeIsJoin(pairs: seq<(string, string)>)
    ensures Serialize(pairs) == Join(EncodedPairs(pairs), '&')
  {
    var encoded := EncodedPairs(pairs);
    if encoded != [] {
      forall i | 0 <= i < |encoded| ensures encoded[i] != [] {
        assert |encoded[i]| >= 1;
      }
      AppendPairsIsJoin("", encoded);
    }
  }

  /** Cuts a string at every occurrence of `sep`. */
  function Split(s: string, sep: char): (parts: seq<string>)
    ensures |parts| >= 1
  {
    if s == [] then [[]]
    else
      var rest := Split(s[1..], sep);
      if s[0] == sep then [[]] + rest else [[s[0]] + rest[0]] + rest[1..]
  }

  lemma NotInTail(x: string, c: char)
    requires c !in x && x != []
    ensures x[0] != c && c !in x[1..]
  {
    assert x[0] in x;
    forall i | 0 <= i < |x[1..]| ensures x[1..][i] != c {
      assert x[1..][i] == x[i + 1];
      assert x[i + 1] in x;
    }
  }

  /** A prefix that holds no separator ends up in the first part. */
  lemma {:induction false} SplitPrefix(x: string, t: string, sep: char)
    requires sep !in x
    ensures Split(x + t, sep) == [x + Split(t, sep)[0]] + Split(t, sep)[1..]
  {
    if x != [] {
      NotInTail(x, sep);
      assert (x + t)[0] == x[0];
      assert (x + t)[1..] == x[1..] + t;
      SplitPrefix(x[1..], t, sep);
      assert [x[0]] + (x[1..] + Split(t, sep)[0]) == x + Split(t, sep)[0];
    } else {
      assert x + t == t;
      var parts := Split(t, sep);
      assert x + parts[0] == parts[0];
      assert [parts[0]] + parts[1..] == parts;
    }
  }

  /** Splitting undoes joining when no part holds the separator. */
  lemma {:induction false} SplitJoin(xs: seq<string>, sep: char)
    requires |xs| >= 1
    requires forall i :: 0 <= i < |xs| ==> sep !in xs[i]
    ensures Split(Join(xs, sep), sep) == xs
  {
    if |xs| == 1 {
      SplitPrefix(xs[0], [], sep);
      assert xs[0] + [] == xs[0];
    } else {
      var rest := Join(xs[1..], sep);
      SplitJoin(xs[1..], sep);
      assert Join(xs, sep) == xs[0] + ([sep] + rest);
      SplitPrefix(xs[0], [sep] + rest, sep);
      assert ([sep] + rest)[1..] == rest;
      assert Split([sep] + rest, sep) == [[]] + xs[1..];
      assert xs[0] + [] == xs[0];
    }
  }

  /** Cuts a string at its first `=`: the name and the value of one pair. */
  function SplitPair(s: string): (string, string) {
    if s == [] then ([], [])
    else if s[0] == '=' then ([], s[1..])
    else
      var rest := SplitPair(s[1..]);
      ([s[0]] + rest.0, rest.1)
  }

  lemma {:induction false} SplitPairAt(name: string, value: string)
    requires '=' !in name
    ensures SplitPair(name + "=" + value) == (name, value)
  {
    if name == [] {
      assert name + "=" + value == ['='] + value;
    } else {
      NotInTail(name, '=');
      assert (name + "=" + value)[0] == name[0];
      assert (name + "=" + value)[1..] == name[1..] + "=" + value;
      SplitPairAt(name[1..], value);
      assert [name[0]] + name[1..] == name;
    }
  }

  function SplitPairs(parts: seq<string>): seq<(string, string)> {
    seq(|parts|, i requires 0 <= i < |parts| => SplitPair(parts[i]))
  }

  /** Takes a serialized form apart into its (still encoded) name/value pairs. */
  function ParseQuery(q: string): seq<(string, string)> {
    SplitPairs(Split(q, '&'))
  }

  /** The serialized form is unambiguous: it splits back into exactly the encoded name and
      value of every pair, in order. */
  lemma SerializeParses(pairs: seq<(string, string)>)
    requires |pairs| >= 1
    ensures |ParseQuery(Serialize(pairs))| == |pairs|
    ensures forall i :: 0 <= i < |pairs| ==>
      ParseQuery(Serialize(pairs))[i] == (Encode(pairs[i].0), Encode(pairs[i].1))
  {
    var parts := EncodedPairs(pairs);
    SerializeIsJoin(pairs);
    forall i | 0 <= i < |parts|
      ensures '&' !in parts[i]
      ensures SplitPair(parts[i]) == (Encode(pairs[i].0), Encode(pairs[i].1))
    {
      EncodeHasNoSeparators(pairs[i].0);
      EncodeHasNoSeparators(pairs[i].1);
      assert '&' !in "=";
      SplitPairAt(Encode(pairs[i].0), Encode(pairs[i].1));
    }
    SplitJoin(parts, '&');
  }
}
