/** ydb/utilities/base64.c: base64 by RFC 4648, section 4, in lines of 72 characters if asked for. */
module Base64 {
  import opened Common

  newtype byte = x: int | 0 <= x < 256

  const PAD: byte := 61   // '='
  const LF: byte := 10
  const NONE: byte := 0x80

  /** base64_table: A to Z, a to z, 0 to 9, + and /. */
  function Sym(i: int): (c: byte)
    requires 0 <= i < 64
  {
    (if i < 26 then 65 + i else if i < 52 then 97 + i - 26 else if i < 62 then 48 + i - 52 else if i == 62 then 43
      else 47) as byte
  }

  /** The decoding table: the six bits of a character, 0 for the padding, NONE for any other. */
  function Value(c: byte): (v: byte)
    ensures v < 64 || v == NONE
    ensures v < 64 && c != PAD ==> Sym(v as int) == c
  {
    if 65 <= c <= 90 then c - 65
    else if 97 <= c <= 122 then c - 97 + 26
    else if 48 <= c <= 57 then c - 48 + 52
    else if c == 43 then 62
    else if c == 47 then 63
    else if c == PAD then 0
    else NONE
  }

  /** The alphabet of RFC 4648, section 4, table 1. */
  lemma {:induction false} StandardTable(i: int)
    requires 0 <= i < 64
    ensures 0 <= i < 26 ==> Sym(i) as char == 'A' + i as char
    ensures 26 <= i < 52 ==> Sym(i) as char == 'a' + (i - 26) as char
    ensures 52 <= i < 62 ==> Sym(i) as char == '0' + (i - 52) as char
    ensures Sym(62) as char == '+' && Sym(63) as char == '/' && PAD as char == '=' && LF as char == '\n'
  {
  }

  lemma {:induction false} ValueSym(i: int)
    requires 0 <= i < 64
    ensures Value(Sym(i)) as int == i && Sym(i) != PAD && Sym(i) != LF
  {
  }

  // ---------- bits ----------

  // The shifts and masks of the source as arithmetic on bytes.

  function Sixes(a: byte, b: byte, c: byte): (r: seq<byte>)
    ensures |r| == 4
  {
    var (x, y, z) := (a as int, b as int, c as int);
    [Sym(x / 4), Sym(x % 4 * 16 + y / 16), Sym(y % 16 * 4 + z / 64), Sym(z % 64)]
  }

  /** Three bytes from four times six bits; what does not fit a byte is cut off. */
  function Eights(p: byte, q: byte, r: byte, s: byte): (b: seq<byte>)
    requires p < 64 && q < 64 && r < 64 && s < 64
    ensures |b| == 3
  {
    var (x, y, z, w) := (p as int, q as int, r as int, s as int);
    [(x * 4 % 256 + y / 16) as byte, (y * 16 % 256 + z / 4) as byte, (z * 64 % 256 + w) as byte]
  }

  /** The three bytes and the four times six bits are the same number, the highest bits first. */
  lemma {:induction false} SameNumber(a: byte, b: byte, c: byte)
    ensures var n := (a as int * 256 + b as int) * 256 + c as int;
      Sixes(a, b, c) == [Sym(n / 64 / 64 / 64), Sym(n / 64 / 64 % 64), Sym(n / 64 % 64), Sym(n % 64)]
  {
    hide Sym;
    SixBits(a as int, b as int, c as int);
  }

  lemma {:induction false} SixBits(x: int, y: int, z: int)
    requires 0 <= x < 256 && 0 <= y < 256 && 0 <= z < 256
    ensures var n := (x * 256 + y) * 256 + z;
      n % 64 == z % 64 && n / 64 % 64 == y % 16 * 4 + z / 64
      && n / 64 / 64 % 64 == x % 4 * 16 + y / 16 && n / 64 / 64 / 64 == x / 4
  {
    Split64(x * 1024 + y * 4 + z / 64, z % 64);
    Split64(x * 16 + y / 16, y % 16 * 4 + z / 64);
    Split64(x / 4, x % 4 * 16 + y / 16);
  }

  lemma {:induction false} Split64(q: int, r: int)
    requires 0 <= q && 0 <= r < 64
    ensures (q * 64 + r) / 64 == q && (q * 64 + r) % 64 == r
  {
  }

  lemma {:induction false} EightsOfSixes(a: byte, b: byte, c: byte)
    ensures var s := Sixes(a, b, c);
      (forall i :: 0 <= i < 4 ==> Value(s[i]) < 64 && s[i] != PAD)
      && Eights(Value(s[0]), Value(s[1]), Value(s[2]), Value(s[3])) == [a, b, c]
  {
    hide Value, Sym;
    var (x, y, z) := (a as int, b as int, c as int);
    ValueSym(x / 4);
    ValueSym(x % 4 * 16 + y / 16);
    ValueSym(y % 16 * 4 + z / 64);
    ValueSym(z % 64);
    Bits(x, y, z);
  }

  lemma {:induction false} Bits(x: int, y: int, z: int)
    requires 0 <= x < 256 && 0 <= y < 256 && 0 <= z < 256
    ensures x / 4 * 4 % 256 + (x % 4 * 16 + y / 16) / 16 == x
    ensures (x % 4 * 16 + y / 16) * 16 % 256 + (y % 16 * 4 + z / 64) / 4 == y
    ensures (y % 16 * 4 + z / 64) * 64 % 256 + z % 64 == z
  {
    HighBits(x, y / 16);
    MiddleBits(x % 4, y, z / 64);
    LowBits(y % 16, z);
  }

  lemma {:induction false} HighBits(x: int, y: int)
    requires 0 <= x < 256 && 0 <= y < 16
    ensures x / 4 * 4 % 256 + (x % 4 * 16 + y) / 16 == x
  {
  }

  lemma {:induction false} MiddleBits(x: int, y: int, z: int)
    requires 0 <= x < 4 && 0 <= y < 256 && 0 <= z < 4
    ensures (x * 16 + y / 16) * 16 % 256 + (y % 16 * 4 + z) / 4 == y
  {
    var hi := y / 16;
    assert (x * 16 + hi) * 16 == x * 256 + hi * 16;
    assert (x * 256 + hi * 16) % 256 == hi * 16;
  }

  lemma {:induction false} LowBits(y: int, z: int)
    requires 0 <= y < 16 && 0 <= z < 256
    ensures (y * 4 + z / 64) * 64 % 256 + z % 64 == z
  {
    assert (y * 4 + z / 64) * 64 == y * 256 + z / 64 * 64;
  }

  // ---------- encoding ----------

  /** The characters for the bytes that remain after all groups of three. */
  function Tail(s: seq<byte>): (r: seq<byte>)
    requires |s| < 3
  {
    if |s| == 0 then []
    else if |s| == 1 then Sixes(s[0], 0, 0)[..2] + [PAD, PAD]
    else Sixes(s[0], s[1], 0)[..3] + [PAD]
  }

  /** The text for `s` when the line so far is `line` characters long. */
  function Encoded(s: seq<byte>, line: nat, lf: bool): seq<byte> {
    if |s| >= 3 then
      var full := line + 4 >= 72;
      Sixes(s[0], s[1], s[2]) + (if full && lf then [LF] else []) + Encoded(s[3..], if full then 0 else line + 4, lf)
    else
      Tail(s) + if lf && (line > 0 || |s| > 0) then [LF] else []
  }

  // ---------- decoding ----------

  /** The characters that count. */
  function Clean(t: seq<byte>): (r: seq<byte>)
    ensures |r| <= |t| && Counts(r)
  {
    if t == [] then [] else Clean(t[..|t| - 1]) + if Value(t[|t| - 1]) != NONE then [t[|t| - 1]] else []
  }

  ghost predicate Counts(t: seq<byte>) {
    forall i :: 0 <= i < |t| ==> Value(t[i]) < 64
  }

  function Pads(g: seq<byte>): nat {
    if g == [] then 0 else Pads(g[..|g| - 1]) + if g[|g| - 1] == PAD then 1 else 0
  }

  /** The bytes of the groups of four up to the first one with padding; None for more than two pads. */
  function Groups(c: seq<byte>): Option<seq<byte>>
    requires Counts(c)
  {
    if |c| < 4 then Some([])
    else
      var b := Eights(Value(c[0]), Value(c[1]), Value(c[2]), Value(c[3]));
      match Pads(c[..4])
      case 0 => (match Groups(c[4..]) case None => None case Some(r) => Some(b + r))
      case 1 => Some(b[..2])
      case 2 => Some(b[..1])
      case _ => None
  }

  /** base64_decode: text without characters that count, or not in groups of four, is refused. */
  function Decoded(t: seq<byte>): Option<seq<byte>> {
    var c := Clean(t);
    if c == [] || |c| % 4 != 0 then None else Groups(c)
  }

  lemma {:induction false} CleanConcat(a: seq<byte>, b: seq<byte>)
    ensures Clean(a + b) == Clean(a) + Clean(b)
  {
    if b == [] {
      assert a + b == a;
    } else {
      assert (a + b)[..|a + b| - 1] == a + b[..|b| - 1];
      CleanConcat(a, b[..|b| - 1]);
    }
  }

  lemma {:induction false} CleanAll(a: seq<byte>)
    requires forall i :: 0 <= i < |a| ==> Value(a[i]) < 64
    ensures Clean(a) == a
  {
    hide Value;
    if a != [] {
      CleanAll(a[..|a| - 1]);
    }
  }

  lemma {:induction false} CleanLine(yes: bool)
    ensures Clean(if yes then [LF] else []) == []
  {
    assert [LF][..0] == [];
  }

  lemma {:induction false} NoPads(g: seq<byte>)
    requires forall i :: 0 <= i < |g| ==> g[i] != PAD
    ensures Pads(g) == 0
  {
    if g != [] {
      NoPads(g[..|g| - 1]);
    }
  }

  /** What counts of an encoded text. */
  lemma {:induction false} CleanEncoded(s: seq<byte>, line: nat, lf: bool)
    ensures Clean(Encoded(s, line, lf)) == Encoded(s, 0, false)
    decreases |s|
  {
    if |s| >= 3 {
      var full := line + 4 >= 72;
      var g, l := Sixes(s[0], s[1], s[2]), if full && lf then [LF] else [];
      var rest := Encoded(s[3..], if full then 0 else line + 4, lf);
      EightsOfSixes(s[0], s[1], s[2]);
      CleanConcat(g + l, rest);
      CleanConcat(g, l);
      CleanAll(g);
      CleanLine(full && lf);
      CleanEncoded(s[3..], if full then 0 else line + 4, lf);
      AnyLine(s[3..], 4, 0);
    } else {
      var l := if lf && (line > 0 || |s| > 0) then [LF] else [];
      CleanConcat(Tail(s), l);
      TailCounts(s);
      CleanAll(Tail(s));
      CleanLine(lf && (line > 0 || |s| > 0));
    }
  }

  /** In lines: a line feed after each 72 characters and at the end, and nowhere else. */
  lemma {:induction false} LinesOf72(s: seq<byte>, line: nat)
    requires line < 72 && line % 4 == 0
    ensures var t := Encoded(s, line, true);
      (t == [] <==> s == [] && line == 0) && InLines(t, line)
    decreases |s|
  {
    hide Sixes, Tail, InLines;
    if |s| >= 3 {
      var full, g := line + 4 >= 72, Sixes(s[0], s[1], s[2]);
      LinesOf72(s[3..], if full then 0 else line + 4);
      EightsOfSixes(s[0], s[1], s[2]);
      NoLineFeed(g);
      GroupInLines(g, Encoded(s[3..], if full then 0 else line + 4, true), line);
    } else {
      TailCounts(s);
      NoLineFeed(Tail(s));
      TailLength(s);
      TailInLines(Tail(s), line);
    }
  }

  /** Line feeds where `line` characters have gone before in the line. */
  ghost predicate InLines(t: seq<byte>, line: nat) {
    forall i :: 0 <= i < |t| ==> (t[i] == LF <==> (line + i) % 73 == 72 || i == |t| - 1)
  }

  lemma {:induction false} GroupInLines(g: seq<byte>, rest: seq<byte>, line: nat)
    requires |g| == 4 && LF !in g && line < 72 && line % 4 == 0
    requires InLines(rest, if line + 4 >= 72 then 0 else line + 4) && (rest == [] ==> line + 4 >= 72)
    ensures InLines(g + (if line + 4 >= 72 then [LF] else []) + rest, line)
  {
    var front := g + if line + 4 >= 72 then [LF] else [];
    var t := front + rest;
    forall i | 0 <= i < |t| ensures t[i] == LF <==> (line + i) % 73 == 72 || i == |t| - 1 {
      if i >= |front| {
        assert t[i] == rest[i - |front|];
      } else {
        assert t[i] == front[i];
      }
    }
  }

  lemma {:induction false} TailInLines(g: seq<byte>, line: nat)
    requires LF !in g && line < 72 && line % 4 == 0 && |g| in {0, 4}
    ensures InLines(g + (if line > 0 || |g| > 0 then [LF] else []), line)
  {
  }

  lemma {:induction false} TailLength(s: seq<byte>)
    requires |s| < 3
    ensures |Tail(s)| == if s == [] then 0 else 4
  {
  }

  lemma {:induction false} NoLineFeed(g: seq<byte>)
    requires forall i :: 0 <= i < |g| ==> Value(g[i]) < 64
    ensures LF !in g
  {
  }

  lemma {:induction false} AnyLine(s: seq<byte>, line: nat, other: nat)
    ensures Encoded(s, line, false) == Encoded(s, other, false)
    decreases |s|
  {
    if |s| >= 3 {
      AnyLine(s[3..], if line + 4 >= 72 then 0 else line + 4, if other + 4 >= 72 then 0 else other + 4);
    }
  }

  lemma {:induction false} TailCounts(s: seq<byte>)
    requires |s| < 3
    ensures forall i :: 0 <= i < |Tail(s)| ==> Value(Tail(s)[i]) < 64
  {
    EightsOfSixes(if |s| > 0 then s[0] else 0, if |s| > 1 then s[1] else 0, 0);
  }

  lemma {:induction false} FullGroup(g: seq<byte>, rest: seq<byte>)
    requires |g| == 4 && Counts(g) && Counts(rest) && Pads(g) == 0
    ensures Counts(g + rest)
    ensures Groups(g + rest) ==
      match Groups(rest)
      case None => None
      case Some(r) => Some(Eights(Value(g[0]), Value(g[1]), Value(g[2]), Value(g[3])) + r)
  {
    hide Value, Eights, Pads;
    assert (g + rest)[..4] == g && (g + rest)[4..] == rest;
  }

  lemma {:induction false} LastGroup(g: seq<byte>)
    requires |g| == 4 && Counts(g) && 0 < Pads(g) < 3
    ensures Groups(g) == Some(Eights(Value(g[0]), Value(g[1]), Value(g[2]), Value(g[3]))[..3 - Pads(g)])
  {
    hide Value, Eights, Pads;
    assert g[..4] == g;
  }

  lemma {:induction false} EncodedHere(s: seq<byte>)
    ensures Encoded(s, 0, false) ==
      if |s| >= 3 then Sixes(s[0], s[1], s[2]) + Encoded(s[3..], 0, false) else Tail(s)
  {
    hide Sixes, Tail;
    if |s| >= 3 {
      AnyLine(s[3..], 4, 0);
      var g := Sixes(s[0], s[1], s[2]);
      assert g + [] == g;
    } else {
      var t := Tail(s);
      assert t + [] == t;
    }
  }

  lemma {:induction false} GroupsOfEncoded(s: seq<byte>)
    ensures var e := Encoded(s, 0, false); Counts(e) && |e| % 4 == 0 && (e == [] <==> s == []) && Groups(e) == Some(s)
    decreases |s|
  {
    hide Value, Eights, Sixes, Pads, Encoded, Groups, Tail, Counts;
    EncodedHere(s);
    if |s| >= 3 {
      var g, rest := Sixes(s[0], s[1], s[2]), Encoded(s[3..], 0, false);
      GroupsOfEncoded(s[3..]);
      SixesCount(s[0], s[1], s[2]);
      FullGroup(g, rest);
      assert |g + rest| % 4 == 0;
      assert [s[0], s[1], s[2]] + s[3..] == s;
    } else if |s| > 0 {
      TailGroup(s);
      LastGroup(Tail(s));
    } else {
      NoGroups();
    }
  }

  lemma {:induction false} SixesCount(a: byte, b: byte, c: byte)
    ensures var g := Sixes(a, b, c);
      Counts(g) && Pads(g) == 0 && Eights(Value(g[0]), Value(g[1]), Value(g[2]), Value(g[3])) == [a, b, c]
  {
    hide Eights, Sixes, Value;
    EightsOfSixes(a, b, c);
    NoPads(Sixes(a, b, c));
  }

  lemma {:induction false} NoGroups()
    ensures Tail([]) == [] && Counts([]) && Groups([]) == Some([])
  {
  }

  lemma {:induction false} TailGroup(s: seq<byte>)
    requires 0 < |s| < 3
    ensures var t := Tail(s);
      |t| == 4 && Pads(t) == 3 - |s| && Counts(t)
      && Eights(Value(t[0]), Value(t[1]), Value(t[2]), Value(t[3]))[..|s|] == s
  {
    hide Value, Eights, Sixes;
    var t, g := Tail(s), Sixes(s[0], if |s| > 1 then s[1] else 0, 0);
    EightsOfSixes(s[0], if |s| > 1 then s[1] else 0, 0);
    PadCounts();
    SixesOfZero(s[0], if |s| > 1 then s[1] else 0);
    NoPads(g[..|s| + 1]);
    assert t[..3][..2] == t[..2] && t[..|s| + 1] == g[..|s| + 1];
  }

  lemma {:induction false} PadCounts()
    ensures Value(PAD) == 0
  {
  }

  /** Where nothing follows the last characters stand for zero, as padding does. */
  lemma {:induction false} SixesOfZero(a: byte, b: byte)
    ensures Value(Sixes(a, b, 0)[3]) == 0 && Value(Sixes(a, 0, 0)[2]) == 0
  {
  }

  /** Decoding undoes encoding, with line feeds or without, exactly of all that is not empty. */
  lemma {:induction false} RoundTrip(s: seq<byte>, lf: bool)
    ensures Decoded(Encoded(s, 0, lf)) == if s == [] then None else Some(s)
  {
    hide Encoded, Groups, Value, Clean;
    CleanEncoded(s, 0, lf);
    GroupsOfEncoded(s);
  }

  /** The first group with padding has more of it than two. */
  ghost predicate PadsBadly(c: seq<byte>, k: nat) {
    4 * k + 4 <= |c| && PAD !in c[..4 * k] && multiset(c[4 * k..4 * k + 4])[PAD] > 2
  }

  /** Refused are texts in which nothing counts, in which groups of four do not come out even, and those with
      more than two paddings in the first group that has any. */
  lemma {:induction false} RefusedExactly(t: seq<byte>)
    ensures Decoded(t).None? <==> Clean(t) == [] || |Clean(t)| % 4 != 0 || exists k :: PadsBadly(Clean(t), k)
  {
    hide Groups, Clean, PadsBadly;
    GroupsRefused(Clean(t));
  }

  lemma {:induction false} GroupsRefused(c: seq<byte>)
    requires Counts(c)
    ensures Groups(c).None? <==> exists k :: PadsBadly(c, k)
    decreases |c|
  {
    hide PadsBadly, Value, Eights, Pads;
    if |c| >= 4 {
      PadsAre(c[..4]);
      GroupsRefused(c[4..]);
      LaterGroup(c, 0);
      if k :| 0 < k && PadsBadly(c, k) {
        LaterGroup(c, k - 1);
      }
      if k :| 0 <= k && PadsBadly(c[4..], k) {
        LaterGroup(c, k);
      }
    } else {
      NoGroup(c);
    }
  }

  lemma {:induction false} NoGroup(c: seq<byte>)
    requires |c| < 4
    ensures forall k :: !PadsBadly(c, k)
  {
  }

  /** The first group is padded badly, or has no padding and a later one is. */
  lemma {:induction false} LaterGroup(c: seq<byte>, k: nat)
    requires |c| >= 4
    ensures PadsBadly(c, 0) <==> multiset(c[..4])[PAD] > 2
    ensures PadsBadly(c, k + 1) <==> multiset(c[..4])[PAD] == 0 && PadsBadly(c[4..], k)
  {
    assert c[..0] == [] && c[0..4] == c[..4];
    if 4 * k + 8 <= |c| {
      assert c[..4 * k + 4] == c[..4] + c[4..][..4 * k];
      assert c[4 * k + 4..4 * k + 8] == c[4..][4 * k..4 * k + 4];
      assert PAD in c[..4 * k + 4] <==> PAD in c[..4] || PAD in c[4..][..4 * k];
      assert PAD in c[..4] <==> PAD in multiset(c[..4]);
    }
  }

  lemma {:induction false} PadsAre(g: seq<byte>)
    ensures Pads(g) == multiset(g)[PAD]
  {
    if g != [] {
      PadsAre(g[..|g| - 1]);
      assert g == g[..|g| - 1] + [g[|g| - 1]];
    }
  }

  // ---------- the buffers ----------

  const SIZE_MAX: nat := 0x1_0000_0000_0000_0000

  /** The size of the buffer for `len` bytes, computed with a size_t of 64 bits. */
  function OutSize(len: nat): nat {
    var olen := (len * 4 % SIZE_MAX / 3 + 4) % SIZE_MAX;
    ((olen + olen / 72) % SIZE_MAX + 1) % SIZE_MAX
  }

  /** The check for overflow refuses exactly the lengths whose fourfold wraps around. */
  lemma {:induction false} GuardIsOverflow(len: nat)
    requires len < SIZE_MAX
    ensures OutSize(len) < len <==> len * 4 >= SIZE_MAX
    ensures len * 4 < SIZE_MAX ==> OutSize(len) == Sized(len)
  {
    var wraps, m := len * 4 / SIZE_MAX, len * 4 % SIZE_MAX;
    var q := m / 3;
    var r := (q + 4) / 72;
    SizeMath(len, wraps, m, q, r);
    Small(q + 4);
    Small(q + 4 + r);
    Small(q + 4 + r + 1);
  }

  function Sized(len: nat): nat {
    len * 4 / 3 + 4 + (len * 4 / 3 + 4) / 72 + 1
  }

  lemma {:induction false} Small(x: nat)
    ensures x < SIZE_MAX ==> x % SIZE_MAX == x
  {
  }

  lemma {:induction false} SizeMath(len: nat, wraps: nat, m: nat, q: nat, r: nat)
    requires len < SIZE_MAX && len * 4 == wraps * SIZE_MAX + m && m < SIZE_MAX
    requires 3 * q <= m <= 3 * q + 2 && 72 * r <= q + 4 <= 72 * r + 71
    ensures q + 4 + r + 1 < SIZE_MAX && (q + 4 + r + 1 < len <==> wraps > 0) && (wraps > 0 <==> len * 4 >= SIZE_MAX)
  {
    assert wraps == 0 || wraps == 1 || wraps == 2 || wraps == 3;
  }

  lemma {:induction false} TextHere(s: seq<byte>, line: nat, lf: bool)
    ensures |s| >= 3 ==>
      |Encoded(s, line, lf)| == 4 + (if line + 4 >= 72 && lf then 1 else 0)
        + |Encoded(s[3..], if line + 4 >= 72 then 0 else line + 4, lf)|
    ensures |s| < 3 ==> |Encoded(s, line, lf)| <= (if s == [] then 0 else 4) + (if line > 0 || |s| > 0 then 1 else 0)
  {
    hide Sixes;
  }

  /** How much text there is. */
  lemma {:induction false} TextFits(s: seq<byte>, line: nat, lf: bool)
    requires line < 72
    ensures |Encoded(s, line, lf)| <= (|s| + 2) / 3 * 4 + (line + |s| / 3 * 4) / 72 + 1
    decreases |s|
  {
    hide Encoded;
    TextHere(s, line, lf);
    if |s| >= 3 {
      var next := if line + 4 >= 72 then 0 else line + 4;
      TextFits(s[3..], next, lf);
      LineMath(line, next, |s[3..]| / 3 * 4);
      assert (|s| + 2) / 3 == 1 + (|s[3..]| + 2) / 3 && |s| / 3 == 1 + |s[3..]| / 3;
    }
  }

  lemma {:induction false} LineMath(line: nat, next: nat, x: nat)
    requires next == if line + 4 >= 72 then 0 else line + 4
    ensures (line + 4 + x) / 72 >= (next + x) / 72 + if line + 4 >= 72 then 1 else 0
  {
    assert line + 4 >= 72 ==> (72 + x) / 72 == 1 + x / 72;
  }

  /** The buffer holds the text and the NUL behind it. */
  lemma {:induction false} BufferFits(s: seq<byte>, lf: bool)
    requires |s| * 4 < SIZE_MAX
    ensures |Encoded(s, 0, lf)| + 1 <= OutSize(|s|)
  {
    hide OutSize, Encoded;
    TextFits(s, 0, lf);
    GuardIsOverflow(|s|);
    var n, k := |s|, |s| / 3;
    RoomMath(n, k, n - 3 * k);
  }

  lemma {:induction false} RoomMath(n: nat, k: nat, rest: nat)
    requires n == 3 * k + rest && rest < 3
    ensures (n + 2) / 3 * 4 + k * 4 / 72 + 2 <= Sized(n)
  {
    assert (n + 2) / 3 == if rest == 0 then k else k + 1;
    assert n * 4 / 3 == 4 * k + rest * 4 / 3;
    assert k * 4 / 72 <= (n * 4 / 3 + 4) / 72;
  }

  /** _base64_encode: into a new buffer, and behind the text a NUL. */
  method Encode(src: array<byte>, lf: bool) returns (out: array?<byte>, len: nat)
    requires src.Length < SIZE_MAX
    ensures out == null <==> src.Length * 4 >= SIZE_MAX
    ensures out != null ==> fresh(out) && out.Length == OutSize(src.Length) && len < out.Length
    ensures out != null ==> out[..len] == Encoded(src[..], 0, lf) && out[len] == 0
  {
    hide Encoded, OutSize, Sixes, Tail;
    GuardIsOverflow(src.Length);
    var olen := OutSize(src.Length);
    if olen < src.Length {
      return null, 0;
    }
    BufferFits(src[..], lf);
    out := new byte[olen];
    var i, pos, line := EncodeGroups(src, lf, out);
    EncodedTail(src[i..], line, lf);
    if i < src.Length {
      Put(out, pos, Tail(src[i..]));
      pos, line := pos + 4, line + 4;
    }
    if line > 0 && lf {
      out[pos] := LF;
      pos := pos + 1;
    }
    out[pos] := 0;
    len := pos;
  }

  /** All the groups of three. */
  method EncodeGroups(src: array<byte>, lf: bool, out: array<byte>) returns (i: nat, pos: nat, line: nat)
    requires out != src && |Encoded(src[..], 0, lf)| <= out.Length
    modifies out
    ensures src.Length - 3 < i <= src.Length && pos <= out.Length
    ensures Encoded(src[..], 0, lf) == out[..pos] + Encoded(src[i..], line, lf)
  {
    hide Encoded, Sixes;
    ghost var s := src[..];
    i, pos, line := 0, 0, 0;
    assert s[0..] == s;
    while src.Length - i >= 3
      invariant i <= src.Length && pos <= out.Length && src[..] == s
      invariant Encoded(s, 0, lf) == out[..pos] + Encoded(s[i..], line, lf)
    {
      EncodedGroup(s[i..], line, lf);
      assert s[i..][3..] == s[i + 3..];
      Put(out, pos, Sixes(src[i], src[i + 1], src[i + 2]));
      pos, i, line := pos + 4, i + 3, line + 4;
      if line >= 72 {
        if lf {
          out[pos] := LF;
          pos := pos + 1;
        }
        line := 0;
      }
    }
    assert src[i..] == s[i..];
  }

  /** The four characters of a group, one after the other. */
  method Put(out: array<byte>, pos: nat, g: seq<byte>)
    requires |g| == 4 && pos + 4 <= out.Length
    modifies out
    ensures out[..pos + 4] == old(out[..pos]) + g
  {
    out[pos] := g[0];
    out[pos + 1] := g[1];
    out[pos + 2] := g[2];
    out[pos + 3] := g[3];
  }

  lemma {:induction false} EncodedGroup(s: seq<byte>, line: nat, lf: bool)
    requires |s| >= 3
    ensures Encoded(s, line, lf) == Sixes(s[0], s[1], s[2]) + (if line + 4 >= 72 && lf then [LF] else [])
      + Encoded(s[3..], if line + 4 >= 72 then 0 else line + 4, lf)
  {
    hide Sixes, Tail;
  }

  lemma {:induction false} EncodedTail(s: seq<byte>, line: nat, lf: bool)
    requires |s| < 3
    ensures Encoded(s, line, lf) == Tail(s) + (if lf && (line > 0 || |s| > 0) then [LF] else [])
    ensures s == [] ==> Tail(s) == []
    ensures s != [] ==> |Tail(s)| == 4
  {
    hide Sixes;
  }

  ghost predicate IsTable(table: array<byte>)
    reads table
  {
    table.Length == 256 && forall c: byte :: table[c as int] == Value(c)
  }

  function Lookup(table: array<byte>, c: byte): (v: byte)
    requires IsTable(table)
    reads table
    ensures v == Value(c)
  {
    table[c as int]
  }

  /** The decoding table, filled in from the characters. */
  method Table() returns (table: array<byte>)
    ensures fresh(table) && IsTable(table)
  {
    table := new byte[256](_ => NONE);
    for i := 0 to 64
      invariant forall c: byte ::
        table[c as int] == if c != PAD && Value(c) != NONE && Value(c) as int < i then Value(c) else NONE
    {
      ValueSym(i);
      table[Sym(i) as int] := i as byte;
    }
    table[PAD as int] := 0;
  }

  ghost function Prepend(b: seq<byte>, o: Option<seq<byte>>): Option<seq<byte>> {
    match o
    case None => None
    case Some(r) => Some(b + r)
  }

  lemma {:induction false} PrependTwice(a: seq<byte>, b: seq<byte>, o: Option<seq<byte>>)
    ensures Prepend(a, Prepend(b, o)) == Prepend(a + b, o) && Prepend([], o) == o
  {
    if o.Some? {
      assert a + (b + o.value) == a + b + o.value && [] + o.value == o.value;
    }
  }

  lemma {:induction false} CleanNext(t: seq<byte>, i: nat)
    requires i < |t|
    ensures Clean(t[..i + 1]) == Clean(t[..i]) + (if Value(t[i]) != NONE then [t[i]] else [])
    ensures |Clean(t[..i + 1])| <= |Clean(t)|
    ensures Clean(t[..i + 1]) <= Clean(t)
  {
    assert t[..i + 1][..i] == t[..i];
    assert t == t[..i + 1] + t[i + 1..];
    CleanConcat(t[..i + 1], t[i + 1..]);
  }

  method Count(src: array<byte>, table: array<byte>) returns (count: nat)
    requires IsTable(table)
    ensures count == |Clean(src[..])|
  {
    count := 0;
    assert src[..0] == [];
    for i := 0 to src.Length
      invariant count == |Clean(src[..i])|
    {
      CleanNext(src[..], i);
      assert src[..][..i + 1] == src[..i + 1] && src[..][..i] == src[..i];
      if Lookup(table, src[i]) != NONE {
        count := count + 1;
      }
    }
    assert src[..src.Length] == src[..];
  }

  /** Three bytes out of a block of four times six bits. */
  method Flush(out: array<byte>, pos: nat, block: array<byte>)
    requires out != block && pos + 3 <= out.Length && block.Length == 4 && forall k :: 0 <= k < 4 ==> block[k] < 64
    modifies out
    ensures out[..pos + 3] == old(out[..pos]) + old(Eights(block[0], block[1], block[2], block[3]))
  {
    var b := Eights(block[0], block[1], block[2], block[3]);
    out[pos] := b[0];
    out[pos + 1] := b[1];
    out[pos + 2] := b[2];
  }

  /** What the characters of a group say. */
  ghost function GroupBytes(g: seq<byte>): (b: seq<byte>)
    requires |g| == 4 && Counts(g)
    ensures |b| == 3
  {
    Eights(Value(g[0]), Value(g[1]), Value(g[2]), Value(g[3]))
  }

  lemma {:induction false} PadsMore(g: seq<byte>, c: byte)
    ensures Pads(g + [c]) == Pads(g) + if c == PAD then 1 else 0
  {
    assert (g + [c])[..|g|] == g;
  }

  lemma {:induction false} TakeGroup(all: seq<byte>, groups: seq<byte>, g: seq<byte>)
    requires Counts(all) && groups + g <= all && |g| == 4
    ensures Counts(g) && |groups| + 4 <= |all| && Counts(all[|groups|..]) && Counts(all[|groups| + 4..])
    ensures Groups(all[|groups|..]) ==
      if Pads(g) == 0 then Prepend(GroupBytes(g), Groups(all[|groups| + 4..]))
      else if Pads(g) <= 2 then Some(GroupBytes(g)[..3 - Pads(g)])
      else None
  {
    hide Pads, Eights, Value;
    var rest := all[|groups|..];
    assert all[..|groups| + 4] == groups + g;
    assert rest[..4] == g && rest[4..] == all[|groups| + 4..];
    assert forall i :: 0 <= i < 4 ==> g[i] == all[|groups| + i];
  }

  lemma {:induction false} CleanCounts(t: seq<byte>)
    ensures Counts(Clean(t))
  {
  }

  lemma {:induction false} DecodedHere(t: seq<byte>)
    ensures Decoded(t) == if Clean(t) == [] || |Clean(t)| % 4 != 0 then None else Groups(Clean(t))
  {
    CleanCounts(t);
  }

  /** base64_decode */
  method Decode(src: array<byte>) returns (out: array?<byte>, len: nat)
    ensures match Decoded(src[..])
      case None => out == null
      case Some(r) => out != null && fresh(out) && len <= out.Length && out[..len] == r
  {
    hide Decoded, Clean, Groups, Value, Eights, Pads, Counts, Prepend, IsTable;
    var table := Table();
    var total := Count(src, table);
    DecodedHere(src[..]);
    CleanCounts(src[..]);
    if total == 0 || total % 4 != 0 {
      return null, 0;
    }
    out := new byte[total / 4 * 3];
    var ok;
    ok, len := DecodeInto(src, table, out);
    if !ok {
      out := null;
    }
  }

  /** The characters read so far: whole groups and part of one. */
  ghost predicate Split(seen: seq<byte>, all: seq<byte>, groups: seq<byte>, pend: seq<byte>, pos: nat, pad: nat) {
    seen == groups + pend && seen <= all && |groups| % 4 == 0 && pos == |groups| / 4 * 3 && pad == Pads(pend)
  }

  lemma {:induction false} SplitMore(text: seq<byte>, i: nat, groups: seq<byte>, pend: seq<byte>, pos: nat, pad: nat)
    requires i < |text| && Split(Clean(text[..i]), Clean(text), groups, pend, pos, pad)
    ensures Value(text[i]) == NONE ==> Split(Clean(text[..i + 1]), Clean(text), groups, pend, pos, pad)
    ensures Value(text[i]) != NONE ==>
      Split(Clean(text[..i + 1]), Clean(text), groups, pend + [text[i]], pos, pad + if text[i] == PAD then 1 else 0)
  {
    hide Value, Clean, Pads;
    CleanNext(text, i);
    PadsMore(pend, text[i]);
    assert Clean(text[..i]) + [] == Clean(text[..i]);
    assert groups + pend + [text[i]] == groups + (pend + [text[i]]);
  }

  lemma {:induction false} SplitFull(seen: seq<byte>, all: seq<byte>, groups: seq<byte>, pend: seq<byte>, pos: nat,
                                     pad: nat)
    requires Split(seen, all, groups, pend, pos, pad) && |pend| == 4
    ensures Split(seen, all, groups + pend, [], pos + 3, 0)
  {
    assert groups + pend + [] == groups + pend;
  }

  method DecodeInto(src: array<byte>, table: array<byte>, out: array<byte>) returns (ok: bool, len: nat)
    requires IsTable(table) && out != table && out != src
    requires var all := Clean(src[..]); Counts(all) && |all| % 4 == 0 && out.Length == |all| / 4 * 3
    modifies out
    ensures len <= out.Length && Groups(Clean(src[..])) == if ok then Some(out[..len]) else None
  {
    hide Clean, Groups, Value, Eights, Pads, Prepend, GroupBytes, Split, IsTable, Counts, Lookup;
    ghost var text, all := src[..], Clean(src[..]);
    var block := new byte[4];
    var pos, count, pad := 0, 0, 0;
    ghost var groups, pend: seq<byte> := [], [];
    StartOfAll(text, out[..0]);
    for i := 0 to src.Length
      invariant src[..] == text && Split(Clean(text[..i]), all, groups, pend, pos, pad) && count == |pend| < 4
      invariant forall k :: 0 <= k < count ==> block[k] == Value(pend[k])
      invariant |groups| <= |all| && pos <= out.Length && Counts(all[|groups|..])
      invariant Groups(all) == Prepend(out[..pos], Groups(all[|groups|..]))
    {
      var c := src[i];
      SplitMore(text, i, groups, pend, pos, pad);
      if Lookup(table, c) != NONE {
        if c == PAD {
          pad := pad + 1;
        }
        block[count] := Lookup(table, c);
        count := count + 1;
        pend := pend + [c];
        if count == 4 {
          SplitFull(Clean(text[..i + 1]), all, groups, pend, pos, pad);
          SplitParts(Clean(text[..i + 1]), all, groups, pend, pos, pad);
          var done;
          done, ok, len := TakeBlock(out, pos, block, pad, all, groups, pend);
          if done {
            return;
          }
          groups, pend, pos, count := groups + pend, [], pos + 3, 0;
        }
      }
    }
    assert text[..src.Length] == text;
    SplitParts(all, all, groups, pend, pos, pad);
    LastOfAll(all, groups, pend, out[..pos]);
    len := pos;
    ok := true;
  }

  lemma {:induction false} StartOfAll(text: seq<byte>, b: seq<byte>)
    requires b == []
    ensures Split(Clean(text[..0]), Clean(text), [], [], 0, 0) && Counts(Clean(text)[0..])
    ensures Groups(Clean(text)) == Prepend(b, Groups(Clean(text)[0..]))
  {
    assert Clean(text)[0..] == Clean(text);
    PrependTwice([], [], Groups(Clean(text)));
  }

  lemma {:induction false} SplitParts(seen: seq<byte>, all: seq<byte>, groups: seq<byte>, pend: seq<byte>, pos: nat,
                                      pad: nat)
    requires Split(seen, all, groups, pend, pos, pad)
    ensures groups + pend <= all && seen == groups + pend && |groups| % 4 == 0 && pos == |groups| / 4 * 3 &&
      pad == Pads(pend)
  {
  }

  lemma {:induction false} LastOfAll(all: seq<byte>, groups: seq<byte>, pend: seq<byte>, b: seq<byte>)
    requires all == groups + pend && |pend| < 4 && |groups| % 4 == 0 && |all| % 4 == 0 && Counts(all)
    ensures Counts(all[|groups|..]) && Prepend(b, Groups(all[|groups|..])) == Some(b)
  {
    assert all[|groups|..] == [] && b + [] == b;
  }

  /** The bytes of a full block; with padding they are the last. */
  method TakeBlock(out: array<byte>, pos: nat, block: array<byte>, pad: nat, ghost all: seq<byte>,
                   ghost groups: seq<byte>, ghost g: seq<byte>)
      returns (done: bool, ok: bool, len: nat)
    requires Counts(all) && groups + g <= all && |g| == 4 && |all| % 4 == 0 && |groups| % 4 == 0
    requires out.Length == |all| / 4 * 3 && pos == |groups| / 4 * 3 && pad == Pads(g) && out != block
    requires block.Length == 4 && forall k :: 0 <= k < 4 ==> block[k] == Value(g[k])
    requires Counts(all[|groups|..]) && Groups(all) == Prepend(out[..pos], Groups(all[|groups|..]))
    modifies out
    ensures len <= out.Length && (done <==> pad > 0)
    ensures done ==> Groups(all) == if ok then Some(out[..len]) else None
    ensures !done ==> pos + 3 <= out.Length && Counts(all[|groups| + 4..])
    ensures !done ==> Groups(all) == Prepend(out[..pos + 3], Groups(all[|groups| + 4..]))
  {
    hide Groups, Value, Eights, Pads, GroupBytes, Counts;
    TakeGroup(all, groups, g);
    BlockBytes(block, g);
    ghost var before := out[..pos];
    PrependTwice(before, GroupBytes(g), Groups(all[|groups| + 4..]));
    Flush(out, pos, block);
    if pad == 0 {
      return false, true, 0;
    }
    if pad > 2 {
      return true, false, 0;
    }
    done, ok, len := true, true, pos + 3 - pad;
    assert out[..len] == out[..pos + 3][..len] == before + GroupBytes(g)[..3 - pad];
  }

  lemma {:induction false} BlockBytes(block: array<byte>, g: seq<byte>)
    requires block.Length == 4 && |g| == 4 && Counts(g) && forall k :: 0 <= k < 4 ==> block[k] == Value(g[k])
    ensures (forall k :: 0 <= k < 4 ==> block[k] < 64) &&
      Eights(block[0], block[1], block[2], block[3]) == GroupBytes(g)
  {
  }
}
