/** Printed network addresses. */
module Addresses {
  import opened Bytes
  import opened Numerals

  /** `%u.%u.%u.%u` */
  function FormatIPv4(a: bytes): string
    requires |a| == 4
  {
    Decimal(a[0]) + "." + Decimal(a[1]) + "." + Decimal(a[2]) + "." + Decimal(a[3])
  }

  /** The eight 16-bit groups of an address. */
  function Groups(a: bytes): (g: seq<nat>)
    requires |a| == 16
    ensures |g| == 8
  {
    seq(8, i requires 0 <= i < 8 => ReadBE16(a, 2 * i))
  }

  /** `%x:%x:%x:%x:%x:%x:%x:%x`, without leading zeros and without compression. */
  function FormatIPv6(a: bytes): string
    requires |a| == 16
  {
    var g := Groups(a);
    Hex(g[0]) + ":" + Hex(g[1]) + ":" + Hex(g[2]) + ":" + Hex(g[3]) + ":"
    + Hex(g[4]) + ":" + Hex(g[5]) + ":" + Hex(g[6]) + ":" + Hex(g[7])
  }

  /** Numerals joined by a separator. */
  function Join(vs: seq<nat>, sep: char, base: nat): string
    requires base == 10 || base == 16
    requires vs != []
  {
    if |vs| == 1 then Numeral(vs[0], base) else Numeral(vs[0], base) + [sep] + Join(vs[1..], sep, base)
  }

  /** Joined numerals determine the numbers. */
  lemma {:induction false} JoinInjective(vs: seq<nat>, ws: seq<nat>, sep: char, base: nat)
    requires base == 10 || base == 16
    requires |vs| == |ws| > 0 && !IsDigit(sep, base)
    requires Join(vs, sep, base) == Join(ws, sep, base)
    ensures vs == ws
    decreases |vs|
  {
    var a, b := Numeral(vs[0], base), Numeral(ws[0], base);
    if |vs| == 1 {
      NumeralInjective(vs[0], ws[0], base);
    } else {
      NotADigit(a, base, sep);
      NotADigit(b, base, sep);
      hide Numeral;
      CutUnique(a, Join(vs[1..], sep, base), b, Join(ws[1..], sep, base), sep);
      NumeralInjective(vs[0], ws[0], base);
      JoinInjective(vs[1..], ws[1..], sep, base);
      assert vs == [vs[0]] + vs[1..] && ws == [ws[0]] + ws[1..];
    }
  }

  lemma JoinStep(vs: seq<nat>, sep: char, base: nat, rest: string)
    requires base == 10 || base == 16
    requires |vs| > 1 && Join(vs[1..], sep, base) == rest
    ensures Join(vs, sep, base) == Numeral(vs[0], base) + [sep] + rest
  {
  }

  lemma Join4(a: nat, b: nat, c: nat, d: nat, sep: char, base: nat)
    requires base == 10 || base == 16
    ensures Join([a, b, c, d], sep, base)
         == Numeral(a, base) + [sep] + Numeral(b, base) + [sep] + Numeral(c, base) + [sep] + Numeral(d, base)
  {
    hide Numeral;
    var w, x, y, z := Numeral(a, base), Numeral(b, base), Numeral(c, base), Numeral(d, base);
    assert [a, b, c, d][1..] == [b, c, d] && [b, c, d][1..] == [c, d] && [c, d][1..] == [d];
    JoinStep([c, d], sep, base, z);
    JoinStep([b, c, d], sep, base, y + [sep] + z);
    JoinStep([a, b, c, d], sep, base, x + [sep] + (y + [sep] + z));
    assert w + [sep] + (x + [sep] + (y + [sep] + z)) == w + [sep] + x + [sep] + y + [sep] + z;
  }

  lemma {:induction false} JoinAppend(vs: seq<nat>, ws: seq<nat>, sep: char, base: nat)
    requires base == 10 || base == 16
    requires vs != [] && ws != []
    ensures Join(vs + ws, sep, base) == Join(vs, sep, base) + [sep] + Join(ws, sep, base)
    decreases |vs|
  {
    hide Numeral;
    assert (vs + ws)[1..] == vs[1..] + ws;
    if |vs| == 1 {
      assert vs[1..] + ws == ws;
    } else {
      JoinAppend(vs[1..], ws, sep, base);
      var a, b, c := Numeral(vs[0], base), Join(vs[1..], sep, base), Join(ws, sep, base);
      assert a + [sep] + (b + [sep] + c) == a + [sep] + b + [sep] + c;
    }
  }

  lemma IPv4IsJoin(a: bytes)
    requires |a| == 4
    ensures FormatIPv4(a) == Join([a[0], a[1], a[2], a[3]], '.', 10)
  {
    Join4(a[0], a[1], a[2], a[3], '.', 10);
  }

  lemma IPv6IsJoin(a: bytes)
    requires |a| == 16
    ensures FormatIPv6(a) == Join(Groups(a), ':', 16)
  {
    hide Numeral, Join;
    var g := Groups(a);
    Join4(g[0], g[1], g[2], g[3], ':', 16);
    Join4(g[4], g[5], g[6], g[7], ':', 16);
    hide Groups;
    JoinAppend([g[0], g[1], g[2], g[3]], [g[4], g[5], g[6], g[7]], ':', 16);
    assert g == [g[0], g[1], g[2], g[3]] + [g[4], g[5], g[6], g[7]];
    var l := Hex(g[0]) + ":" + Hex(g[1]) + ":" + Hex(g[2]) + ":" + Hex(g[3]) + ":";
    assert l + Hex(g[4]) + ":" + Hex(g[5]) + ":" + Hex(g[6]) + ":" + Hex(g[7])
        == l + (Hex(g[4]) + ":" + Hex(g[5]) + ":" + Hex(g[6]) + ":" + Hex(g[7]));
  }

  lemma SplitAfter(a: string, c: char, b: string)
    requires c !in a
    ensures Split(a + [c] + b, c) == [a] + Split(b, c)
  {
    FindAfter(a, c, b);
    var s := a + [c] + b;
    assert s[..|a|] == a && s[|a| + 1..] == b;
    hide Find;
  }

  lemma SplitOne(a: string, c: char)
    requires c !in a
    ensures Split(a, c) == [a]
  {
    hide Find;
  }

  /** Cutting joined numerals at the separator gives the numerals. */
  lemma {:induction false} SplitOfJoin(vs: seq<nat>, sep: char, base: nat)
    requires base == 10 || base == 16
    requires vs != [] && !IsDigit(sep, base)
    ensures var parts := Split(Join(vs, sep, base), sep);
      |parts| == |vs| && forall i | 0 <= i < |vs| :: parts[i] == Numeral(vs[i], base)
    decreases |vs|
  {
    NotADigit(Numeral(vs[0], base), base, sep);
    hide Numeral, Split;
    if |vs| == 1 {
      SplitOne(Numeral(vs[0], base), sep);
    } else {
      SplitOfJoin(vs[1..], sep, base);
      SplitAfter(Numeral(vs[0], base), sep, Join(vs[1..], sep, base));
      assert forall i | 0 < i < |vs| :: vs[i] == vs[1..][i - 1];
    }
  }

  /** The text consists of the numbers' numerals, without superfluous zeros, between the separators. */
  predicate ReadsAs(text: string, sep: char, base: nat, vs: seq<nat>)
    requires base == 10 || base == 16
  {
    var parts := Split(text, sep);
    && |parts| == |vs|
    && forall i | 0 <= i < |vs| :: Canonical(parts[i], base) && Value(parts[i], base) == vs[i]
  }

  lemma JoinReads(vs: seq<nat>, sep: char, base: nat)
    requires base == 10 || base == 16
    requires vs != [] && !IsDigit(sep, base)
    ensures ReadsAs(Join(vs, sep, base), sep, base, vs)
  {
    SplitOfJoin(vs, sep, base);
    hide Join, Split, Numeral, Value, Canonical;
    forall i | 0 <= i < |vs|
      ensures var part := Split(Join(vs, sep, base), sep)[i]; Canonical(part, base) && Value(part, base) == vs[i]
    {
      NumeralIsCanonical(vs[i], base);
      ValueOfNumeral(vs[i], base);
    }
  }

  /** Cut at its dots, a printed IPv4 address is the four bytes in order, in decimal. */
  lemma IPv4Reads(a: bytes)
    requires |a| == 4
    ensures ReadsAs(FormatIPv4(a), '.', 10, [a[0], a[1], a[2], a[3]])
  {
    IPv4IsJoin(a);
    hide ReadsAs, Join, FormatIPv4;
    JoinReads([a[0], a[1], a[2], a[3]], '.', 10);
  }

  /** Cut at its colons, a printed IPv6 address is the eight big-endian pairs of bytes in order, in hexadecimal. */
  lemma IPv6Reads(a: bytes)
    requires |a| == 16
    ensures ReadsAs(FormatIPv6(a), ':', 16,
                    seq(8, i requires 0 <= i < 8 => 0x100 * a[2 * i] as int + a[2 * i + 1] as int))
  {
    IPv6IsJoin(a);
    var pairs := seq(8, i requires 0 <= i < 8 => 0x100 * a[2 * i] as int + a[2 * i + 1] as int);
    assert Groups(a) == pairs;
    hide ReadsAs, Join, FormatIPv6, Groups;
    JoinReads(pairs, ':', 16);
  }

  /** Two IPv4 addresses print alike exactly when all their bytes agree. */
  lemma IPv4Injective(a: bytes, b: bytes)
    requires |a| == |b| == 4
    ensures FormatIPv4(a) == FormatIPv4(b) <==> a == b
  {
    if FormatIPv4(a) == FormatIPv4(b) {
      IPv4IsJoin(a);
      IPv4IsJoin(b);
      hide FormatIPv4;
      var v, w: seq<nat> := [a[0], a[1], a[2], a[3]], [b[0], b[1], b[2], b[3]];
      JoinInjective(v, w, '.', 10);
      assert v[0] == w[0] && v[1] == w[1] && v[2] == w[2] && v[3] == w[3];
    }
  }

  lemma GroupsInjective(a: bytes, b: bytes)
    requires |a| == |b| == 16 && Groups(a) == Groups(b)
    ensures a == b
  {
    forall i | 0 <= i < 8
      ensures a[2 * i] == b[2 * i] && a[2 * i + 1] == b[2 * i + 1]
    {
      assert ReadBE16(a, 2 * i) == Groups(a)[i] == Groups(b)[i] == ReadBE16(b, 2 * i);
    }
    forall k | 0 <= k < 16
      ensures a[k] == b[k]
    {
      assert k == 2 * (k / 2) || k == 2 * (k / 2) + 1;
    }
  }

  /** Two IPv6 addresses print alike exactly when all their bytes agree. */
  lemma IPv6Injective(a: bytes, b: bytes)
    requires |a| == |b| == 16
    ensures FormatIPv6(a) == FormatIPv6(b) <==> a == b
  {
    if FormatIPv6(a) == FormatIPv6(b) {
      IPv6IsJoin(a);
      IPv6IsJoin(b);
      hide FormatIPv6, Groups;
      JoinInjective(Groups(a), Groups(b), ':', 16);
      GroupsInjective(a, b);
    }
  }

  lemma {:induction false} JoinHasNo(vs: seq<nat>, sep: char, base: nat, c: char)
    requires base == 10 || base == 16
    requires vs != [] && c != sep && !IsDigit(c, base)
    ensures c !in Join(vs, sep, base)
    decreases |vs|
  {
    NotADigit(Numeral(vs[0], base), base, c);
    hide Numeral;
    if |vs| > 1 {
      JoinHasNo(vs[1..], sep, base, c);
    }
  }

  /** No IPv4 address prints like an IPv6 address. */
  lemma FamiliesDisjoint(a: bytes, b: bytes)
    requires |a| == 4 && |b| == 16
    ensures FormatIPv4(a) != FormatIPv6(b)
  {
    IPv6IsJoin(b);
    hide FormatIPv6, Groups, Numeral;
    JoinHasNo(Groups(b), ':', 16, '.');
    assert FormatIPv4(a)[|Decimal(a[0])|] == '.';
  }
}
