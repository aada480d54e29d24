/**
 Base64 as in section 4 of RFC 4648: the reference encoding, the buffer and vector
 forms that fill an output array in place, and the round trips between them.
 */
module Base64 {

  type Byte = x: nat | x < 256

  /** Characters are single bytes. */
  type Char = c: char | c as int < 256 witness 'A'

  type Text = seq<Char>

  // ----- the reference encoding

  function Alphabet(v: nat): (c: Char)
    requires v < 64
  {
    if v < 26 then 'A' + (v as char)
    else if v < 52 then 'a' + ((v - 26) as char)
    else if v < 62 then '0' + ((v - 52) as char)
    else if v == 62 then '+'
    else '/'
  }

  predicate InAlphabet(c: Char) {
    'A' <= c <= 'Z' || 'a' <= c <= 'z' || '0' <= c <= '9' || c == '+' || c == '/'
  }

  function Sextet(c: Char): (v: nat)
    requires InAlphabet(c)
    ensures v < 64 && Alphabet(v) == c
  {
    if 'A' <= c <= 'Z' then c as int - 'A' as int
    else if 'a' <= c <= 'z' then c as int - 'a' as int + 26
    else if '0' <= c <= '9' then c as int - '0' as int + 52
    else if c == '+' then 62
    else 63
  }

  lemma {:induction false} SextetOfAlphabet(v: nat)
    requires v < 64
    ensures InAlphabet(Alphabet(v)) && Sextet(Alphabet(v)) == v && Alphabet(v) != '='
  {
  }

  function Quad(a: nat, b: nat, c: nat): (q: Text)
    requires a < 256 && b < 256 && c < 256
    ensures |q| == 4
  {
    [Alphabet(a / 4), Alphabet(a % 4 * 16 + b / 16), Alphabet(b % 16 * 4 + c / 64), Alphabet(c % 64)]
  }

  /** Three bytes become four characters; one or two bytes at the end are padded. */
  function Encode(x: seq<Byte>): (s: Text)
    decreases |x|
  {
    if x == [] then []
    else if |x| == 1 then Quad(x[0], 0, 0)[..2] + ['=', '=']
    else if |x| == 2 then Quad(x[0], x[1], 0)[..3] + ['=']
    else Quad(x[0], x[1], x[2]) + Encode(x[3..])
  }

  function EncodedLength(n: nat): nat {
    4 * ((n + 2) / 3)
  }

  /** The same without padding: missing bytes count as zero. */
  function Raw(x: seq<Byte>): (s: Text)
    ensures |s| == EncodedLength(|x|)
    decreases |x|
  {
    if x == [] then []
    else
      var b := if |x| > 1 then x[1] else 0;
      var c := if |x| > 2 then x[2] else 0;
      Quad(x[0], b, c) + Raw(x[if |x| < 3 then |x| else 3..])
  }

  function Padding(n: nat): (p: nat)
    ensures p <= 2 && (n > 0 ==> p < EncodedLength(n))
  {
    if n % 3 == 1 then 2 else if n % 3 == 2 then 1 else 0
  }

  function Pads(n: nat): (s: Text)
    ensures |s| == n
  {
    if n == 0 then [] else Pads(n - 1) + ['=']
  }

  lemma {:induction false} PaddedRaw(x: seq<Byte>)
    ensures |Encode(x)| == EncodedLength(|x|)
    ensures Encode(x) == Raw(x)[..EncodedLength(|x|) - Padding(|x|)] + Pads(Padding(|x|))
    decreases |x|
  {
    hide Quad, Pads, EncodedLength, Padding;
    if |x| < 3 {
      ShortPaddedRaw(x);
    } else {
      PaddedRaw(x[3..]);
      LengthStep(|x|);
      PaddingStep(|x|);
      LaterPads(Quad(x[0], x[1], x[2]), Raw(x[3..]), EncodedLength(|x| - 3) - Padding(|x|), Pads(Padding(|x|)));
    }
  }

  lemma {:induction false} ShortPaddedRaw(x: seq<Byte>)
    requires |x| < 3
    ensures |Encode(x)| == EncodedLength(|x|)
    ensures Encode(x) == Raw(x)[..EncodedLength(|x|) - Padding(|x|)] + Pads(Padding(|x|))
  {
    hide Quad, Pads, EncodedLength, Padding;
    LengthStep(|x|);
    PadsAre();
    if x != [] {
      assert x[|x|..] == [] && Raw([]) == [];
    }
  }

  lemma {:induction false} LaterPads(q: Text, r: Text, n: nat, pads: Text)
    requires |q| == 4 && n <= |r|
    ensures (q + r)[..4 + n] + pads == q + (r[..n] + pads)
  {
    assert (q + r)[..4 + n] == q + r[..n];
  }

  lemma {:induction false} PadsAre()
    ensures Pads(0) == [] && Pads(1) == ['='] && Pads(2) == ['=', '=']
    ensures Padding(0) == 0 && Padding(1) == 2 && Padding(2) == 1
  {
    assert Pads(1) == Pads(0) + ['='];
  }

  // ----- encoding in place

  lemma {:induction false} TripleSplits(a: nat, b: nat, c: nat)
    requires a < 256 && b < 256 && c < 256
    ensures var t := a * 65536 + b * 256 + c;
            && t / 262144 % 64 == a / 4 && t / 4096 % 64 == a % 4 * 16 + b / 16
            && t / 64 % 64 == b % 16 * 4 + c / 64 && t % 64 == c % 64
  {
    var t := a * 65536 + b * 256 + c;
    var p, r, u, w, m, k := a / 4, a % 4, b / 16, b % 16, c / 64, c % 64;
    assert a == 4 * p + r && b == 16 * u + w && c == 64 * m + k;
    SixBits(4096 * p + 1024 * r + 64 * u + 4 * w + m, k, 1, t);
    SixBits(64 * p + 16 * r + u, 4 * w + m, 64, t);
    SixBits(p, 16 * r + u, 4096, t);
    SixBits(0, p, 262144, t);
  }

  /** The six bits of t at weight w, given its higher part. */
  lemma {:induction false} SixBits(high: nat, bits: nat, w: nat, t: nat)
    requires bits < 64 && w > 0 && (high * 64 + bits) * w <= t < (high * 64 + bits + 1) * w
    ensures t / w % 64 == bits
  {
    var q := high * 64 + bits;
    Quotient(t, w, q);
    assert q % 64 == bits;
  }

  lemma {:induction false} Quotient(t: nat, w: nat, q: nat)
    requires w > 0 && q * w <= t < (q + 1) * w
    ensures t / w == q
  {
    var e := t / w;
    assert e * w <= t < (e + 1) * w;
    assert e < q ==> (e + 1) * w <= q * w;
    assert e > q ==> (q + 1) * w <= e * w;
  }

  /** The main loop, up to three bytes a round. */
  method FillGroups(input: seq<Byte>, output: array<Char>)
    requires EncodedLength(|input|) <= output.Length
    modifies output
    ensures output[..] == Raw(input) + old(output[EncodedLength(|input|)..])
  {
    hide EncodedLength, Raw, Quad;
    ghost var needed, tail := EncodedLength(|input|), output[EncodedLength(|input|)..];
    var i, j := 0, 0;
    assert input[0..] == input;
    while i < |input|
      invariant i <= |input| && j + EncodedLength(|input| - i) == needed
      invariant output[..j] + Raw(input[i..]) == Raw(input)
      invariant output[needed..] == tail
    {
      var a: nat := input[i];
      var b: nat := if i + 1 < |input| then input[i + 1] else 0;
      var c: nat := if i + 2 < |input| then input[i + 2] else 0;
      var next := if |input| - i < 3 then |input| else i + 3;
      RawStep(input, i, next, a, b, c);
      LengthStep(|input| - i);
      TripleSplits(a, b, c);
      QuadIs(a, b, c);
      ghost var before := output[..];
      WriteQuad(output, j, a * 65536 + b * 256 + c);
      AfterQuad(before, output[..], j, needed, Quad(a, b, c), Raw(input[next..]));
      i, j := next, j + 4;
    }
    LengthStep(0);
    RawEmpty();
    assert output[..needed] + [] == output[..needed];
    assert output[..] == output[..needed] + output[needed..];
  }

  lemma {:induction false} RawEmpty()
    ensures Raw([]) == []
  {
  }

  lemma {:induction false} LengthStep(m: nat)
    ensures EncodedLength(0) == 0
    ensures m > 0 ==> EncodedLength(m) == 4 + EncodedLength(if m < 3 then 0 else m - 3)
  {
  }

  lemma {:induction false} QuadIs(a: nat, b: nat, c: nat)
    requires a < 256 && b < 256 && c < 256
    ensures Quad(a, b, c) ==
            [Alphabet(a / 4), Alphabet(a % 4 * 16 + b / 16), Alphabet(b % 16 * 4 + c / 64), Alphabet(c % 64)]
  {
  }

  lemma {:induction false} RawStep(input: seq<Byte>, i: nat, next: nat, a: nat, b: nat, c: nat)
    requires i < |input| && next == (if |input| - i < 3 then |input| else i + 3)
    requires a == input[i] && b == (if i + 1 < |input| then input[i + 1] else 0)
    requires c == if i + 2 < |input| then input[i + 2] else 0
    ensures Raw(input[i..]) == Quad(a, b, c) + Raw(input[next..])
  {
    var rest := input[i..];
    assert rest[if |rest| < 3 then |rest| else 3..] == input[next..];
  }

  lemma {:induction false} AfterQuad(before: Text, after: Text, j: nat, needed: nat, q: Text, rest: Text)
    requires |q| == 4 && j + 4 <= needed <= |before|
    requires after == before[..j] + q + before[j + 4..]
    ensures |after| == |before| && after[needed..] == before[needed..]
    ensures after[..j + 4] + rest == before[..j] + (q + rest)
  {
    assert after[..j + 4] == before[..j] + q;
  }

  method FillPadding(output: array<Char>, needed: nat, pads: nat)
    requires pads <= needed <= output.Length
    modifies output
    ensures output[..] == Padded(old(output[..]), needed, pads)
  {
    hide Pads, Padded;
    ghost var all := output[..];
    PadNone(all, needed);
    for i := 0 to pads
      invariant output[..] == Padded(all, needed, i)
    {
      PadOne(all, needed, i);
      output[needed - 1 - i] := '=';
    }
  }

  /** s with the i characters before position n turned into pads. */
  function Padded(s: Text, n: nat, i: nat): (r: Text)
    requires i <= n <= |s|
    ensures |r| == |s|
  {
    s[..n - i] + Pads(i) + s[n..]
  }

  lemma {:induction false} PadNone(s: Text, n: nat)
    requires n <= |s|
    ensures Padded(s, n, 0) == s
  {
  }

  lemma {:induction false} PadOne(s: Text, n: nat, i: nat)
    requires i < n <= |s|
    ensures Padded(s, n, i + 1) == Padded(s, n, i)[n - 1 - i := '=']
  {
    hide Pads;
    PadsFront(i);
    var left, right := s[..n - i - 1], s[n..];
    assert s[..n - i] == left + [s[n - i - 1]];
    assert left + (['='] + Pads(i)) + right == (left + [s[n - i - 1]] + Pads(i) + right)[n - 1 - i := '='];
  }

  lemma {:induction false} PadsFront(n: nat)
    ensures ['='] + Pads(n) == Pads(n + 1)
  {
    if n > 0 {
      PadsFront(n - 1);
      assert ['='] + (Pads(n - 1) + ['=']) == ['='] + Pads(n - 1) + ['='];
    }
  }

  /** ok is false when the output is missing or too small; needed is the length of the encoding either way. */
  method EncodeInto(input: seq<Byte>, output: array?<Char>, size: nat) returns (ok: bool, needed: nat)
    requires output != null ==> size <= output.Length
    modifies output
    ensures needed == |Encode(input)|
    ensures ok <==> output != null && needed <= size
    ensures ok ==> output[..] == Encode(input) + old(output[needed..])
    ensures !ok && output != null ==> output[..] == old(output[..])
  {
    hide Encode, Raw, Pads, Padding;
    PaddedRaw(input);
    needed := 4 * ((|input| + 2) / 3);
    if output == null || size < needed {
      return false, needed;
    }
    FillGroups(input, output);
    assert output[..needed] == Raw(input);
    assert output[..needed - Padding(|input|)] == Raw(input)[..needed - Padding(|input|)];
    FillPadding(output, needed, Padding(|input|));
    return true, needed;
  }

  method WriteQuad(output: array<Char>, j: nat, triple: nat)
    requires j + 4 <= output.Length && triple < 16777216
    modifies output
    ensures output[..] == old(output[..j]) +
            [Alphabet(triple / 262144 % 64), Alphabet(triple / 4096 % 64), Alphabet(triple / 64 % 64), Alphabet(triple % 64)] +
            old(output[j + 4..])
  {
    output[j] := Alphabet(triple / 262144 % 64);
    output[j + 1] := Alphabet(triple / 4096 % 64);
    output[j + 2] := Alphabet(triple / 64 % 64);
    output[j + 3] := Alphabet(triple % 64);
  }

  /** The vector form. */
  method EncodeBytes(input: seq<Byte>) returns (s: Text)
    ensures s == Encode(input)
  {
    PaddedRaw(input);
    var size := 4 * ((|input| + 2) / 3);
    var out := new Char[size];
    var _, needed := EncodeInto(input, out, size);
    assert out[..needed] == Encode(input);
    return out[..needed];
  }

  // ----- decoding

  /** What the decoding table holds; entries it never sets keep whatever was there before, given by `junk`. */
  function TableEntry(junk: seq<Byte>, c: Char): (v: Byte)
    requires |junk| == 256
  {
    if InAlphabet(c) then Sextet(c) else junk[c as int]
  }

  function Digit(junk: seq<Byte>, c: Char): (v: Byte)
    requires |junk| == 256
  {
    if c == '=' then 0 else TableEntry(junk, c)
  }

  function Bytes(triple: nat): (r: seq<Byte>)
    ensures |r| == 3
  {
    [triple / 65536 % 256, triple / 256 % 256, triple % 256]
  }

  function Joined(a: nat, b: nat, c: nat, d: nat): nat {
    a * 262144 + b * 4096 + c * 64 + d
  }

  function Group(junk: seq<Byte>, s: Text): (r: seq<Byte>)
    requires |junk| == 256 && |s| >= 4
    ensures |r| == 3
  {
    Bytes(Joined(Digit(junk, s[0]), Digit(junk, s[1]), Digit(junk, s[2]), Digit(junk, s[3])))
  }

  function Groups(junk: seq<Byte>, s: Text): (r: seq<Byte>)
    requires |junk| == 256 && |s| % 4 == 0
    ensures |r| == |s| / 4 * 3
    decreases |s|
  {
    if s == [] then [] else Group(junk, s) + Groups(junk, s[4..])
  }

  function DecodedLength(s: Text): (n: nat)
    requires |s| >= 4
    ensures n <= |s| / 4 * 3 <= n + 2
  {
    |s| / 4 * 3 - (if s[|s| - 1] == '=' then 1 else 0) - (if s[|s| - 2] == '=' then 1 else 0)
  }

  function Zeros(n: nat): (r: seq<Byte>)
    ensures |r| == n
  {
    seq(n, _ => 0)
  }

  predicate WrongLength(s: Text) {
    |s| % 4 != 0 || |s| < 2
  }

  /** The vector form: a text of the wrong length is not refused, it yields zeros. */
  function Decode(junk: seq<Byte>, s: Text): (x: seq<Byte>)
    requires |junk| == 256
  {
    if WrongLength(s) then Zeros(|s| / 4 * 3 + 2) else Groups(junk, s)[..DecodedLength(s)]
  }

  method BuildTable(junk: seq<Byte>) returns (table: array<Byte>)
    requires |junk| == 256
    ensures fresh(table) && table.Length == 256
    ensures forall c: Char :: table[c as int] == TableEntry(junk, c)
  {
    table := new Byte[256](i requires 0 <= i < 256 => junk[i]);
    for v := 0 to 64
      invariant forall c: Char ::
        table[c as int] == if InAlphabet(c) && Sextet(c) < v then Sextet(c) else junk[c as int]
    {
      SextetOfAlphabet(v);
      table[Alphabet(v) as int] := v;
    }
  }

  function Least(a: nat, b: nat): nat {
    if a <= b then a else b
  }

  /** Writes as many of the three bytes as fit before `limit`. */
  method WriteBytes(output: array<Byte>, start: nat, limit: nat, triple: nat) returns (j: nat)
    requires start <= limit <= output.Length
    modifies output
    ensures j == Least(start + 3, limit)
    ensures output[..] == old(output[..start]) + Bytes(triple)[..j - start] + old(output[j..])
  {
    j := start;
    if j < limit {
      output[j] := triple / 65536 % 256;
      j := j + 1;
    }
    if j < limit {
      output[j] := triple / 256 % 256;
      j := j + 1;
    }
    if j < limit {
      output[j] := triple % 256;
      j := j + 1;
    }
  }

  lemma {:induction false} GroupAt(junk: seq<Byte>, s: Text, g: nat)
    requires |junk| == 256 && |s| % 4 == 0 && 4 * g < |s|
    ensures 3 * g + 3 <= |Groups(junk, s)| && Groups(junk, s)[3 * g..3 * g + 3] == Group(junk, s[4 * g..])
    decreases |s|
  {
    hide Group;
    if g == 0 {
      assert s[0..] == s;
    } else {
      GroupAt(junk, s[4..], g - 1);
      assert s[4..][4 * (g - 1)..] == s[4 * g..];
      Later(Group(junk, s), Groups(junk, s[4..]), 3 * (g - 1));
    }
  }

  lemma {:induction false} Later(a: seq<Byte>, b: seq<Byte>, k: nat)
    requires |a| == 3 && k + 3 <= |b|
    ensures (a + b)[k + 3..k + 6] == b[k..k + 3]
  {
  }

  /** ok is false, and the size stays as given, for a wrong length; or the output is missing or too small. */
  method DecodeInto(junk: seq<Byte>, input: Text, output: array?<Byte>, size: nat) returns (ok: bool, needed: nat)
    requires |junk| == 256
    requires output != null ==> size <= output.Length
    modifies output
    ensures needed == if WrongLength(input) then size else DecodedLength(input)
    ensures ok <==> !WrongLength(input) && output != null && needed <= size
    ensures ok ==> output[..] == Decode(junk, input) + old(output[needed..])
    ensures !ok && output != null ==> output[..] == old(output[..])
  {
    hide Groups;
    var n := |input|;
    if n % 4 != 0 || n < 2 {
      return false, size;
    }
    needed := n / 4 * 3;
    if input[n - 1] == '=' {
      needed := needed - 1;
    }
    if input[n - 2] == '=' {
      needed := needed - 1;
    }
    if output == null || size < needed {
      return false, needed;
    }
    FillBytes(junk, input, output, needed);
    return true, needed;
  }

  method FillBytes(junk: seq<Byte>, input: Text, output: array<Byte>, needed: nat)
    requires |junk| == 256 && |input| % 4 == 0
    requires needed <= output.Length && needed <= |input| / 4 * 3
    modifies output
    ensures output[..] == Groups(junk, input)[..needed] + old(output[needed..])
  {
    hide Groups, Group, Bytes, TableEntry;
    var table := BuildTable(junk);
    ghost var all, tail, g: nat := Groups(junk, input), output[needed..], 0;
    var i, j := 0, 0;
    while i < |input|
      invariant i <= |input| && i == 4 * g && j == Least(3 * g, needed)
      invariant output[..j] == all[..j] && output[needed..] == tail
      invariant forall c: Char :: table[c as int] == TableEntry(junk, c)
    {
      var triple := ReadGroup(junk, table, input, i);
      GroupAt(junk, input, g);
      ghost var before, start := output[..], j;
      j := WriteBytes(output, j, needed, triple);
      AfterBytes(before, output[..], all, start, j, 3 * g, needed, Bytes(triple));
      i := i + 4;
      g := g + 1;
    }
    assert output[..] == output[..needed] + output[needed..];
  }

  method ReadGroup(junk: seq<Byte>, table: array<Byte>, input: Text, i: nat) returns (triple: nat)
    requires |junk| == 256 && table.Length == 256 && i + 4 <= |input|
    requires forall c: Char :: table[c as int] == TableEntry(junk, c)
    ensures Bytes(triple) == Group(junk, input[i..])
  {
    hide TableEntry, Bytes;
    var a: nat := if input[i] == '=' then 0 else table[input[i] as int];
    var b: nat := if input[i + 1] == '=' then 0 else table[input[i + 1] as int];
    var c: nat := if input[i + 2] == '=' then 0 else table[input[i + 2] as int];
    var d: nat := if input[i + 3] == '=' then 0 else table[input[i + 3] as int];
    return Joined(a, b, c, d);
  }

  lemma {:induction false} AfterBytes(
    before: seq<Byte>, after: seq<Byte>, all: seq<Byte>, start: nat, j: nat, k: nat, needed: nat, group: seq<Byte>)
    requires |group| == 3 && k + 3 <= |all| && all[k..k + 3] == group && needed <= |before|
    requires start == Least(k, needed) && j == Least(start + 3, needed) && before[..start] == all[..start]
    requires after == before[..start] + group[..j - start] + before[j..]
    ensures j == Least(k + 3, needed) && |after| == |before|
    ensures after[..j] == all[..j] && after[needed..] == before[needed..]
  {
    if k < needed {
      assert all[..j] == all[..k] + all[k..k + 3][..j - k];
    }
  }

  method DecodeText(junk: seq<Byte>, s: Text) returns (x: seq<Byte>)
    requires |junk| == 256
    ensures x == Decode(junk, s)
  {
    hide Groups;
    var size := |s| / 4 * 3 + 2;
    var output := new Byte[size](_ => 0);
    var ok, needed := DecodeInto(junk, s, output, size);
    if ok {
      assert output[..needed] == Decode(junk, s);
    } else {
      assert output[..] == Zeros(size);
    }
    return output[..needed];
  }

  /** The 24 bits that four characters stand for; a pad counts as zero. */
  function Bits(junk: seq<Byte>, s: Text, g: nat): nat
    requires |junk| == 256 && 4 * g + 4 <= |s|
  {
    ((Digit(junk, s[4 * g]) * 64 + Digit(junk, s[4 * g + 1])) * 64 + Digit(junk, s[4 * g + 2])) * 64 + Digit(junk, s[4 * g + 3])
  }

  /** What any text decodes to, canonical or not: byte k is one of the three of its group, one byte is dropped for each pad among the last two characters. */
  lemma {:induction false} DecodedBytes(junk: seq<Byte>, s: Text, k: nat)
    requires |junk| == 256
    ensures var x := Decode(junk, s);
            if |s| == 0 || |s| % 4 != 0 then |x| == |s| / 4 * 3 + 2 && (k < |x| ==> x[k] == 0)
            else
              && |x| == |s| / 4 * 3 - (if s[|s| - 1] == '=' then 1 else 0) - (if s[|s| - 2] == '=' then 1 else 0)
              && (k < |x| ==> k / 3 < |s| / 4 && x[k] == Bits(junk, s, k / 3) / (if k % 3 == 0 then 65536 else if k % 3 == 1 then 256 else 1) % 256)
  {
    hide Groups, Digit;
    var x := Decode(junk, s);
    if !WrongLength(s) && k < |x| {
      var g := k / 3;
      GroupAt(junk, s, g);
      assert s[4 * g..][0] == s[4 * g] && s[4 * g..][1] == s[4 * g + 1] && s[4 * g..][2] == s[4 * g + 2] && s[4 * g..][3] == s[4 * g + 3];
      BitsAre(junk, s, g);
      assert x[k] == Groups(junk, s)[3 * g..3 * g + 3][k % 3];
    }
  }

  lemma {:induction false} BitsAre(junk: seq<Byte>, s: Text, g: nat)
    requires |junk| == 256 && 4 * g + 4 <= |s|
    ensures Group(junk, s[4 * g..]) == Bytes(Bits(junk, s, g))
  {
    hide Digit, Bytes;
  }

  // ----- round trips

  lemma {:induction false} BytesOf(a: nat, b: nat, c: nat)
    requires a < 256 && b < 256 && c < 256
    ensures Bytes(a * 65536 + b * 256 + c) == [a, b, c]
  {
    var t := a * 65536 + b * 256 + c;
    assert t / 256 == a * 256 + b;
    assert t / 65536 == a;
  }

  lemma {:induction false} QuadJoins(a: nat, b: nat, c: nat)
    ensures Joined(a / 4, a % 4 * 16 + b / 16, b % 16 * 4 + c / 64, c % 64) == a * 65536 + b * 256 + c
  {
    var p, r := a / 4, a % 4;
    var u, w := b / 16, b % 16;
    var m, k := c / 64, c % 64;
    assert a == 4 * p + r && b == 16 * u + w && c == 64 * m + k;
  }

  lemma {:induction false} DigitIs(junk: seq<Byte>, v: nat)
    requires |junk| == 256 && v < 64
    ensures Digit(junk, Alphabet(v)) == v && Digit(junk, '=') == 0
  {
    SextetOfAlphabet(v);
  }

  lemma {:induction false} QuadGroup(junk: seq<Byte>, a: nat, b: nat, c: nat, s: Text)
    requires |junk| == 256 && a < 256 && b < 256 && c < 256 && |s| >= 4
    requires s[0] == Quad(a, b, c)[0] && s[1] == Quad(a, b, c)[1]
    requires s[2] == Quad(a, b, c)[2] || (s[2] == '=' && b == c == 0)
    requires s[3] == Quad(a, b, c)[3] || (s[3] == '=' && c == 0)
    ensures Group(junk, s) == [a, b, c]
  {
    hide Alphabet, Sextet, Digit, Bytes, Joined;
    DigitIs(junk, a / 4);
    DigitIs(junk, a % 4 * 16 + b / 16);
    DigitIs(junk, b % 16 * 4 + c / 64);
    DigitIs(junk, c % 64);
    QuadJoins(a, b, c);
    BytesOf(a, b, c);
  }

  /** The last group of an encoding, which alone may be padded. */
  lemma {:induction false} LastGroup(junk: seq<Byte>, x: seq<Byte>)
    requires |junk| == 256 && 0 < |x| <= 3
    ensures |Encode(x)| == 4 && Group(junk, Encode(x)) == x + Zeros(Padding(|x|))
    ensures DecodedLength(Encode(x)) == |x|
  {
    hide Alphabet, Group;
    var b := if |x| > 1 then x[1] else 0;
    var c := if |x| > 2 then x[2] else 0;
    assert |x| == 3 ==> x[3..] == [];
    QuadGroup(junk, x[0], b, c, Encode(x));
    SextetOfAlphabet(b % 16 * 4 + c / 64);
    SextetOfAlphabet(c % 64);
  }

  lemma {:induction false} EncodeStep(x: seq<Byte>)
    requires |x| > 3
    ensures Encode(x) == Quad(x[0], x[1], x[2]) + Encode(x[3..]) && Encode(x)[4..] == Encode(x[3..])
    ensures |Encode(x[3..])| >= 4
  {
    PaddedRaw(x[3..]);
  }

  lemma {:induction false} LengthOfTail(s: Text)
    requires |s| >= 8 && |s| % 4 == 0
    ensures DecodedLength(s) == DecodedLength(s[4..]) + 3
  {
    assert s[4..][|s| - 5] == s[|s| - 1] && s[4..][|s| - 6] == s[|s| - 2];
  }

  lemma {:induction false} LengthOfEncoding(x: seq<Byte>)
    requires x != []
    ensures |Encode(x)| == EncodedLength(|x|) && |Encode(x)| >= 4 && DecodedLength(Encode(x)) == |x|
    decreases |x|
  {
    hide Alphabet, Quad, Raw, Encode, Pads, DecodedLength, EncodedLength, Group, Zeros;
    PaddedRaw(x);
    MultipleOfFour(|x|);
    if |x| <= 3 {
      LastGroup(Zeros(256), x);
    } else {
      EncodeStep(x);
      LengthOfEncoding(x[3..]);
      LengthOfTail(Encode(x));
    }
  }

  lemma {:induction false} MultipleOfFour(n: nat)
    ensures EncodedLength(n) % 4 == 0
  {
  }

  lemma {:induction false} PaddingStep(n: nat)
    requires n >= 3
    ensures Padding(n) == Padding(n - 3)
  {
  }

  /** Decoding every group of an encoding gives the bytes back, followed by a zero for each pad. */
  lemma {:induction false} GroupsOfEncoding(junk: seq<Byte>, x: seq<Byte>)
    requires |junk| == 256 && x != []
    ensures |Encode(x)| % 4 == 0 && Groups(junk, Encode(x)) == x + Zeros(Padding(|x|))
    decreases |x|
  {
    hide Alphabet, Group, Quad, Encode, EncodedLength, Padding, DecodedLength;
    LengthOfEncoding(x);
    MultipleOfFour(|x|);
    var s := Encode(x);
    if |x| <= 3 {
      LastGroup(junk, x);
      assert s[4..] == [];
    } else {
      EncodeStep(x);
      QuadGroup(junk, x[0], x[1], x[2], s);
      GroupsOfEncoding(junk, x[3..]);
      PaddingStep(|x|);
      assert x == [x[0], x[1], x[2]] + x[3..];
      assert [x[0], x[1], x[2]] + (x[3..] + Zeros(Padding(|x|))) == x + Zeros(Padding(|x|));
    }
  }

  /** Decoding undoes encoding, exactly for non-empty input: the empty text decodes to two zero bytes. */
  lemma {:induction false} DecodeOfEncode(junk: seq<Byte>, x: seq<Byte>)
    requires |junk| == 256
    ensures Decode(junk, Encode(x)) == x <==> x != []
  {
    if x == [] {
      assert |Decode(junk, [])| == 2;
    } else {
      LengthOfEncoding(x);
      GroupsOfEncoding(junk, x);
      assert (x + Zeros(Padding(|x|)))[..|x|] == x;
    }
  }

  /** Section 4 of RFC 4648: full groups of alphabet characters, the last one padded, its unused bits zero. */
  predicate Canonical(s: Text)
    decreases |s|
  {
    s == [] ||
    (|s| >= 4 && InAlphabet(s[0]) && InAlphabet(s[1]) &&
     if |s| > 4 then InAlphabet(s[2]) && InAlphabet(s[3]) && Canonical(s[4..])
     else if s[3] != '=' then InAlphabet(s[2]) && InAlphabet(s[3])
     else if s[2] != '=' then InAlphabet(s[2]) && Sextet(s[2]) % 4 == 0
     else Sextet(s[1]) % 16 == 0)
  }

  lemma {:induction false} EncodeIsCanonical(x: seq<Byte>)
    ensures Canonical(Encode(x))
    decreases |x|
  {
    hide Alphabet, InAlphabet;
    if x != [] {
      var b: nat := if |x| > 1 then x[1] else 0;
      var c: nat := if |x| > 2 then x[2] else 0;
      QuadInAlphabet(x[0], b, c);
      if |x| > 3 {
        EncodeIsCanonical(x[3..]);
        EncodeStep(x);
      } else if |x| == 3 {
        assert Encode(x) == Quad(x[0], b, c) + [];
      }
    }
  }

  lemma {:induction false} QuadInAlphabet(a: nat, b: nat, c: nat)
    requires a < 256 && b < 256 && c < 256
    ensures forall i :: 0 <= i < 4 ==> InAlphabet(Quad(a, b, c)[i]) && Quad(a, b, c)[i] != '='
    ensures Sextet(Quad(a, b, c)[1]) == a % 4 * 16 + b / 16
    ensures Sextet(Quad(a, b, c)[2]) == b % 16 * 4 + c / 64
  {
    hide Alphabet, InAlphabet;
    SextetOfAlphabet(a / 4);
    SextetOfAlphabet(a % 4 * 16 + b / 16);
    SextetOfAlphabet(b % 16 * 4 + c / 64);
    SextetOfAlphabet(c % 64);
  }

  lemma {:induction false} QuadOfSextets(p: nat, q: nat, r: nat, t: nat)
    requires p < 64 && q < 64 && r < 64 && t < 64
    ensures Quad(p * 4 + q / 16, q % 16 * 16 + r / 4, r % 4 * 64 + t) == [Alphabet(p), Alphabet(q), Alphabet(r), Alphabet(t)]
  {
    hide Alphabet;
    var a, b, c := p * 4 + q / 16, q % 16 * 16 + r / 4, r % 4 * 64 + t;
    assert a / 4 == p && a % 4 == q / 16;
    assert b / 16 == q % 16 && b % 16 == r / 4;
    assert c / 64 == r % 4 && c % 64 == t;
  }

  lemma {:induction false} CanonicalIsEncoded(s: Text) returns (x: seq<Byte>)
    requires Canonical(s)
    ensures Encode(x) == s
    decreases |s|
  {
    if s == [] {
      return [];
    }
    if |s| > 4 {
      var rest := CanonicalIsEncoded(s[4..]);
      var here := FullQuadIsEncoded(s);
      x := here + rest;
      assert x[3..] == rest && s == s[..4] + s[4..];
    } else if s[3] != '=' {
      x := FullQuadIsEncoded(s);
      assert x[3..] == [] && s[..4] == s;
    } else {
      x := PaddedQuadIsEncoded(s);
    }
  }

  lemma {:induction false} FullQuadIsEncoded(s: Text) returns (x: seq<Byte>)
    requires |s| >= 4 && forall i :: 0 <= i < 4 ==> InAlphabet(s[i])
    ensures |x| == 3 && Quad(x[0], x[1], x[2]) == s[..4]
  {
    hide Alphabet, InAlphabet, Quad;
    var p, q, r, t := Sextet(s[0]), Sextet(s[1]), Sextet(s[2]), Sextet(s[3]);
    x := [p * 4 + q / 16, q % 16 * 16 + r / 4, r % 4 * 64 + t];
    QuadOfSextets(p, q, r, t);
  }

  lemma {:induction false} PaddedQuadIsEncoded(s: Text) returns (x: seq<Byte>)
    requires Canonical(s) && |s| == 4 && s[3] == '='
    ensures Encode(x) == s
  {
    hide Alphabet, InAlphabet, Quad;
    var p, q := Sextet(s[0]), Sextet(s[1]);
    if s[2] == '=' {
      QuadOfSextets(p, q, 0, 0);
      x := [p * 4 + q / 16];
    } else {
      var r := Sextet(s[2]);
      QuadOfSextets(p, q, r, 0);
      x := [p * 4 + q / 16, q % 16 * 16 + r / 4];
    }
  }

  /** Encoding undoes decoding exactly on the canonical texts other than the empty one. */
  lemma {:induction false} EncodeOfDecode(junk: seq<Byte>, s: Text)
    requires |junk| == 256
    ensures Encode(Decode(junk, s)) == s <==> s != [] && Canonical(s)
  {
    if Encode(Decode(junk, s)) == s {
      EncodeIsCanonical(Decode(junk, s));
      DecodeOfEncode(junk, Decode(junk, s));
      PaddedRaw(Decode(junk, s));
    } else if Canonical(s) && s != [] {
      var x := CanonicalIsEncoded(s);
      DecodeOfEncode(junk, x);
    }
  }
}
