/**
 The text of addresses as net.IP.String prints it: dotted decimal for IPv4, and for
 IPv6 lower-case hexadecimal groups with the longest run of zero groups shortened
 (section 4 of RFC 5952).  ParseIP reads back exactly those texts.
 */
module Text {
  import opened Wrappers
  import opened Bytes

  // ---- numerals

  function Digit(d: nat): char
    requires d < 16
  {
    "0123456789abcdef"[d]
  }

  function DigitValue(c: char): nat
  {
    if '0' <= c <= '9' then c as int - '0' as int
    else if 'a' <= c <= 'f' then c as int - 'a' as int + 10
    else 0
  }

  /** n in hexadecimal or decimal, without leading zeros. */
  function Numeral(hex: bool, n: nat): string
  {
    if hex then if n < 16 then [Digit(n)] else Numeral(hex, n / 16) + [Digit(n % 16)]
    else if n < 10 then [Digit(n)] else Numeral(hex, n / 10) + [Digit(n % 10)]
  }

  function ReadNumeral(hex: bool, s: string): nat
  {
    if s == "" then 0
    else if hex then 16 * ReadNumeral(hex, s[..|s| - 1]) + DigitValue(s[|s| - 1])
    else 10 * ReadNumeral(hex, s[..|s| - 1]) + DigitValue(s[|s| - 1])
  }

  predicate DigitsOnly(s: string)
  {
    forall c :: c in s ==> '0' <= c <= '9' || 'a' <= c <= 'f'
  }

  lemma DigitBack(d: nat)
    requires d < 16
    ensures DigitValue(Digit(d)) == d
    ensures '0' <= Digit(d) <= '9' || 'a' <= Digit(d) <= 'f'
    ensures d < 10 ==> '0' <= Digit(d) <= '9'
  {
    assert Digit(d) == if d < 10 then '0' + d as char else 'a' + (d - 10) as char;
  }

  lemma ReadAppend(hex: bool, s: string, d: nat)
    requires d < (if hex then 16 else 10)
    ensures ReadNumeral(hex, s + [Digit(d)]) == (if hex then 16 else 10) * ReadNumeral(hex, s) + d
    ensures DigitsOnly(s) ==> DigitsOnly(s + [Digit(d)])
  {
    DigitBack(d);
    hide Digit, DigitValue;
    assert (s + [Digit(d)])[..|s|] == s;
  }

  lemma {:induction false} ReadBack(hex: bool, n: nat)
    ensures ReadNumeral(hex, Numeral(hex, n)) == n
    ensures Numeral(hex, n) != "" && DigitsOnly(Numeral(hex, n))
    ensures !hex ==> '0' <= Numeral(hex, n)[0] <= '9'
  {
    var base := if hex then 16 else 10;
    assert ReadNumeral(hex, "") == 0;
    hide Digit, ReadNumeral, DigitsOnly;
    if n >= base {
      ReadBack(hex, n / base);
      ReadAppend(hex, Numeral(hex, n / base), n % base);
    } else {
      DigitBack(n);
      assert DigitsOnly("");
      ReadAppend(hex, "", n);
      assert "" + [Digit(n)] == [Digit(n)];
    }
  }

  // ---- joining and splitting

  function Join(sep: char, parts: seq<string>): string
  {
    if |parts| == 0 then "" else if |parts| == 1 then parts[0]
    else parts[0] + [sep] + Join(sep, parts[1..])
  }

  function Split(sep: char, s: string): (parts: seq<string>)
    ensures |parts| > 0
  {
    if s == "" then [""]
    else if s[0] == sep then [""] + Split(sep, s[1..])
    else var rest := Split(sep, s[1..]); [[s[0]] + rest[0]] + rest[1..]
  }

  lemma {:induction false} SplitAtFirst(sep: char, part: string, rest: string)
    requires sep !in part
    ensures Split(sep, part + [sep] + rest) == [part] + Split(sep, rest)
    ensures Split(sep, part) == [part]
  {
    if part == "" {
      assert ("" + [sep] + rest)[1..] == rest;
    } else {
      SplitAtFirst(sep, part[1..], rest);
      assert (part + [sep] + rest)[1..] == part[1..] + [sep] + rest;
      assert part == [part[0]] + part[1..];
    }
  }

  lemma {:induction false} SplitJoin(sep: char, parts: seq<string>)
    requires |parts| > 0 && forall p :: p in parts ==> sep !in p
    ensures Split(sep, Join(sep, parts)) == parts
  {
    if |parts| == 1 {
      SplitAtFirst(sep, parts[0], "");
    } else {
      SplitJoin(sep, parts[1..]);
      SplitAtFirst(sep, parts[0], Join(sep, parts[1..]));
    }
  }

  // ---- sequences of numerals

  function Numerals(hex: bool, ns: seq<nat>): (r: seq<string>)
    ensures |r| == |ns|
  {
    if ns == [] then [] else [Numeral(hex, ns[0])] + Numerals(hex, ns[1..])
  }

  lemma {:induction false} NumeralsAt(hex: bool, ns: seq<nat>, i: nat)
    requires i < |ns|
    ensures Numerals(hex, ns)[i] == Numeral(hex, ns[i])
  {
    if i > 0 {
      NumeralsAt(hex, ns[1..], i - 1);
    }
  }

  function ReadNumerals(hex: bool, parts: seq<string>): (r: seq<nat>)
    ensures |r| == |parts|
  {
    if parts == [] then [] else [ReadNumeral(hex, parts[0])] + ReadNumerals(hex, parts[1..])
  }

  lemma {:induction false} ReadNumeralsBack(hex: bool, ns: seq<nat>)
    ensures ReadNumerals(hex, Numerals(hex, ns)) == ns
    ensures "" !in Numerals(hex, ns) && forall p :: p in Numerals(hex, ns) ==> DigitsOnly(p)
  {
    if ns != [] {
      ReadBack(hex, ns[0]);
      ReadNumeralsBack(hex, ns[1..]);
    }
  }

  // ---- IPv4

  function Text4(ip: IP): string
    requires |ip| == 4
  {
    Join('.', Numerals(false, ip))
  }

  function Decode4(s: string): IP
  {
    Narrow(ReadNumerals(false, Split('.', s)))
  }

  function Narrow(ns: seq<nat>): (ip: IP)
    ensures |ip| == |ns|
    ensures forall i :: 0 <= i < |ns| && ns[i] < 256 ==> ip[i] == ns[i]
  {
    seq(|ns|, i requires 0 <= i < |ns| => if ns[i] < 256 then ns[i] else 0)
  }

  lemma Text4RoundTrip(ip: IP)
    requires |ip| == 4
    ensures Decode4(Text4(ip)) == ip
  {
    ReadNumeralsBack(false, ip);
    SplitJoin('.', Numerals(false, ip));
    assert Narrow(ip) == ip;
  }

  // ---- IPv6

  /** The eight 16-bit groups. */
  function Groups(ip: IP): (gs: seq<nat>)
    requires |ip| == 16
    ensures |gs| == 8
    ensures forall g :: g in gs ==> g < 0x1_0000
  {
    seq(8, i requires 0 <= i < 8 => var high: nat := ip[2 * i]; 256 * high + ip[2 * i + 1])
  }

  function Ungroup(gs: seq<nat>): (ip: IP)
    ensures |ip| == 2 * |gs|
  {
    seq(2 * |gs|, i requires 0 <= i < 2 * |gs| => if i % 2 == 0 then gs[i / 2] / 256 % 256 else gs[i / 2] % 256)
  }

  /** How many groups from i on are zero. */
  function ZeroRun(gs: seq<nat>, i: nat): (n: nat)
    requires i <= |gs|
    ensures i + n <= |gs| && forall j :: i <= j < i + n ==> gs[j] == 0
    decreases |gs| - i
  {
    if i < |gs| && gs[i] == 0 then 1 + ZeroRun(gs, i + 1) else 0
  }

  /** The first of the longest runs of zero groups at or after i that beat the run at `best`. */
  function LongestRun(gs: seq<nat>, i: nat, best: nat): (start: nat)
    requires i <= |gs| && best <= |gs|
    ensures start <= |gs|
    decreases |gs| - i
  {
    if i == |gs| then best
    else LongestRun(gs, i + 1, if ZeroRun(gs, i) > ZeroRun(gs, best) then i else best)
  }

  /** The texts between the colons; a lone zero group is not shortened. */
  function Parts6(gs: seq<nat>, start: nat): seq<string>
    requires start <= |gs|
  {
    var end := start + ZeroRun(gs, start);
    if end - start < 2 then Numerals(true, gs)
    else
      (if start == 0 then [""] else Numerals(true, gs[..start])) + [""]
      + (if end == |gs| then [""] else Numerals(true, gs[end..]))
  }

  function Text6(ip: IP): string
    requires |ip| == 16
  {
    var gs := Groups(ip);
    Join(':', Parts6(gs, LongestRun(gs, 0, 0)))
  }

  function BeforeGap(parts: seq<string>): seq<string>
  {
    if parts == [] || parts[0] == "" then [] else [parts[0]] + BeforeGap(parts[1..])
  }

  function AfterGap(parts: seq<string>): seq<string>
  {
    if parts == [] || parts[|parts| - 1] == "" then [] else AfterGap(parts[..|parts| - 1]) + [parts[|parts| - 1]]
  }

  function ReadGroups(parts: seq<string>): seq<nat>
  {
    var left, right := BeforeGap(parts), AfterGap(parts);
    if "" !in parts then ReadNumerals(true, parts)
    else ReadNumerals(true, left) + seq(if |left| + |right| <= 8 then 8 - |left| - |right| else 0, _ => 0)
         + ReadNumerals(true, right)
  }

  function Decode6(s: string): IP
  {
    Ungroup(ReadGroups(Split(':', s)))
  }

  lemma {:induction false} GapAfter(left: seq<string>, rest: seq<string>)
    requires "" !in left
    ensures BeforeGap(left + [""] + rest) == left
  {
    if left != [] {
      GapAfter(left[1..], rest);
      assert (left + [""] + rest)[1..] == left[1..] + [""] + rest;
    }
  }

  lemma {:induction false} GapBefore(rest: seq<string>, right: seq<string>)
    requires "" !in right
    ensures AfterGap(rest + [""] + right) == right
  {
    if right != [] {
      var n := |right| - 1;
      GapBefore(rest, right[..n]);
      assert (rest + [""] + right)[..|rest| + 1 + n] == rest + [""] + right[..n];
    }
  }

  /** A shortened run, whether or not groups precede or follow it. */
  lemma GapParts(left: seq<string>, right: seq<string>)
    requires "" !in left && "" !in right
    ensures var parts := (if left == [] then [""] else left) + [""] + (if right == [] then [""] else right);
            BeforeGap(parts) == left && AfterGap(parts) == right && "" in parts && |parts| > 1
  {
    var before, after := if left == [] then [""] else left, if right == [] then [""] else right;
    var parts := before + [""] + after;
    assert parts[|before|] == "";
    var afterLeft := if left == [] then [""] + after else after;
    assert parts == left + [""] + afterLeft;
    GapAfter(left, afterLeft);
    var beforeRight := if right == [] then before + [""] else before;
    assert parts == beforeRight + [""] + right;
    GapBefore(beforeRight, right);
  }

  lemma ReadGroupsBack(gs: seq<nat>, start: nat)
    requires |gs| == 8 && start <= 8
    ensures ReadGroups(Parts6(gs, start)) == gs
    ensures |Parts6(gs, start)| > 1 && forall p :: p in Parts6(gs, start) ==> DigitsOnly(p)
  {
    hide Numeral, ReadNumeral, DigitsOnly;
    var end := start + ZeroRun(gs, start);
    if end - start < 2 {
      ReadNumeralsBack(true, gs);
    } else {
      ShortenedBack(gs, start, end);
    }
  }

  /** The texts of groups with a run between them shortened. */
  function GapTexts(left: seq<nat>, right: seq<nat>): seq<string>
  {
    (if left == [] then [""] else Numerals(true, left)) + [""] + (if right == [] then [""] else Numerals(true, right))
  }

  lemma GapRead(left: seq<nat>, right: seq<nat>)
    requires |left| + |right| <= 8
    ensures ReadGroups(GapTexts(left, right)) == left + seq(8 - |left| - |right|, _ => 0) + right
    ensures |GapTexts(left, right)| > 1
  {
    ReadNumeralsBack(true, left);
    ReadNumeralsBack(true, right);
    hide Numeral, Numerals, ReadNumeral, ReadNumerals, BeforeGap, AfterGap, DigitsOnly;
    GapParts(Numerals(true, left), Numerals(true, right));
    var parts := GapTexts(left, right);
    assert BeforeGap(parts) == Numerals(true, left) && AfterGap(parts) == Numerals(true, right) && "" in parts;
    hide GapTexts;
  }

  lemma GapDigits(left: seq<nat>, right: seq<nat>)
    ensures forall p :: p in GapTexts(left, right) ==> DigitsOnly(p)
  {
    ReadNumeralsBack(true, left);
    ReadNumeralsBack(true, right);
    assert DigitsOnly("");
    hide Numerals, DigitsOnly;
  }

  lemma GapFilled(gs: seq<nat>, start: nat, end: nat)
    requires start <= end <= |gs| == 8 && forall j :: start <= j < end ==> gs[j] == 0
    ensures gs == gs[..start] + seq(8 - |gs[..start]| - |gs[end..]|, _ => 0) + gs[end..]
  {
  }

  lemma ShortenedTexts(gs: seq<nat>, start: nat, end: nat)
    requires start <= |gs| && end == start + ZeroRun(gs, start) && end - start >= 2
    ensures Parts6(gs, start) == GapTexts(gs[..start], gs[end..])
  {
    hide ZeroRun, Numerals;
    assert start == 0 <==> gs[..start] == [];
    assert end == |gs| <==> gs[end..] == [];
  }

  /** Reading back with the zero groups from start to end shortened. */
  lemma ShortenedBack(gs: seq<nat>, start: nat, end: nat)
    requires |gs| == 8 && start <= 8 && end == start + ZeroRun(gs, start) && end - start >= 2
    ensures ReadGroups(Parts6(gs, start)) == gs
    ensures |Parts6(gs, start)| > 1 && forall p :: p in Parts6(gs, start) ==> DigitsOnly(p)
  {
    hide ZeroRun, Numeral, Numerals, ReadGroups, DigitsOnly, Parts6, GapTexts;
    GapFilled(gs, start, end);
    ShortenedTexts(gs, start, end);
    GapRead(gs[..start], gs[end..]);
    GapDigits(gs[..start], gs[end..]);
  }

  lemma Text6RoundTrip(ip: IP)
    requires |ip| == 16
    ensures Decode6(Text6(ip)) == ip
    ensures ':' in Text6(ip)
  {
    hide Groups, Ungroup, LongestRun, ZeroRun, Parts6, ReadGroups, Split, Join, Numerals, Numeral;
    var gs := Groups(ip);
    var parts := Parts6(gs, LongestRun(gs, 0, 0));
    ReadGroupsBack(gs, LongestRun(gs, 0, 0));
    assert forall p :: p in parts ==> ':' !in p;
    hide DigitsOnly;
    SplitJoin(':', parts);
    SeparatorIn(':', parts);
    UngroupBack(ip);
  }

  lemma UngroupBack(ip: IP)
    requires |ip| == 16
    ensures Ungroup(Groups(ip)) == ip
  {
    var gs, back := Groups(ip), Ungroup(Groups(ip));
    forall i | 0 <= i < 16
      ensures back[i] == ip[i]
    {
      var high: nat, low: nat := ip[2 * (i / 2)], ip[2 * (i / 2) + 1];
      assert gs[i / 2] == 256 * high + low;
      assert back[i] == if i % 2 == 0 then high else low;
    }
  }

  lemma SeparatorIn(sep: char, parts: seq<string>)
    requires |parts| > 1
    ensures sep in Join(sep, parts)
  {
    assert Join(sep, parts)[|parts[0]|] == sep;
  }

  // ---- what the texts look like

  /** Numerals have no leading zeros, and decimal ones no letters. */
  lemma {:induction false} NumeralForm(hex: bool, n: nat)
    ensures Numeral(hex, n) != "" && (Numeral(hex, n)[0] == '0' ==> n == 0)
    ensures !hex ==> forall c :: c in Numeral(hex, n) ==> '0' <= c <= '9'
  {
    var base := if hex then 16 else 10;
    DigitBack(n % base);
    hide Digit;
    if n >= base {
      NumeralForm(hex, n / base);
    } else if n > 0 {
      assert DigitValue('0') == 0;
    }
  }

  lemma {:induction false} JoinAcross(sep: char, a: seq<string>, b: seq<string>)
    requires |a| > 0 && |b| > 0
    ensures Join(sep, a + b) == Join(sep, a) + [sep] + Join(sep, b)
  {
    if |a| == 1 {
      assert (a + b)[1..] == b;
    } else {
      JoinAcross(sep, a[1..], b);
      assert (a + b)[1..] == a[1..] + b;
    }
  }

  /** Four decimal numerals between dots. */
  lemma Text4Form(ip: IP)
    requires |ip| == 4
    ensures Text4(ip) == Numeral(false, ip[0]) + "." + Numeral(false, ip[1]) + "." + Numeral(false, ip[2]) + "." + Numeral(false, ip[3])
  {
    hide Numeral, Numerals, Join;
    var parts := [Numeral(false, ip[0]), Numeral(false, ip[1]), Numeral(false, ip[2]), Numeral(false, ip[3])];
    FourNumerals(ip);
    JoinShort('.');
    JoinAcross('.', parts[..1], parts[1..]);
    JoinAcross('.', parts[1..2], parts[2..]);
    JoinAcross('.', parts[2..3], parts[3..]);
    assert parts[..1] == [parts[0]] && parts[1..2] == [parts[1]] && parts[2..3] == [parts[2]] && parts[3..] == [parts[3]];
    assert parts == parts[..1] + parts[1..] && parts[1..] == parts[1..2] + parts[2..] && parts[2..] == parts[2..3] + parts[3..];
  }

  lemma FourNumerals(ip: IP)
    requires |ip| == 4
    ensures Numerals(false, ip) == [Numeral(false, ip[0]), Numeral(false, ip[1]), Numeral(false, ip[2]), Numeral(false, ip[3])]
  {
    hide Numeral, Numerals;
    NumeralsAt(false, ip, 0);
    NumeralsAt(false, ip, 1);
    NumeralsAt(false, ip, 2);
    NumeralsAt(false, ip, 3);
  }

  /** Of the runs before i the one at best is longest, and the first of its length. */
  ghost predicate FirstLongest(gs: seq<nat>, i: nat, best: nat)
    requires best <= i <= |gs|
  {
    forall j :: 0 <= j < i ==> ZeroRun(gs, j) <= ZeroRun(gs, best) && (j < best ==> ZeroRun(gs, j) < ZeroRun(gs, best))
  }

  /** The run that is shortened is longest, and the first of its length; it ends at a group that is not zero. */
  lemma {:induction false} LongestRunIsFirst(gs: seq<nat>, i: nat, best: nat)
    requires best <= i <= |gs| && FirstLongest(gs, i, best)
    ensures var start := LongestRun(gs, i, best); var n := ZeroRun(gs, start);
            FirstLongest(gs, |gs|, start) && (start + n < |gs| ==> gs[start + n] != 0)
    decreases |gs| - i
  {
    hide ZeroRun, FirstLongest;
    if i < |gs| {
      var next := if ZeroRun(gs, i) > ZeroRun(gs, best) then i else best;
      OneRunOn(gs, i, best, next);
      LongestRunIsFirst(gs, i + 1, next);
    } else {
      RunEnds(gs, best);
    }
  }

  lemma OneRunOn(gs: seq<nat>, i: nat, best: nat, next: nat)
    requires best <= i < |gs| && FirstLongest(gs, i, best) && next == if ZeroRun(gs, i) > ZeroRun(gs, best) then i else best
    ensures FirstLongest(gs, i + 1, next)
  {
    hide ZeroRun;
  }

  lemma {:induction false} RunEnds(gs: seq<nat>, i: nat)
    requires i <= |gs|
    ensures i + ZeroRun(gs, i) < |gs| ==> gs[i + ZeroRun(gs, i)] != 0
    decreases |gs| - i
  {
    if i < |gs| && gs[i] == 0 {
      RunEnds(gs, i + 1);
    }
  }

  /** Eight hexadecimal numerals between colons, or those before and after a run of at least two zero groups. */
  lemma Text6Form(ip: IP)
    requires |ip| == 16
    ensures var gs := Groups(ip); var start := LongestRun(gs, 0, 0); var n := ZeroRun(gs, start);
            Text6(ip) == if n < 2 then Join(':', Numerals(true, gs))
                         else Join(':', Numerals(true, gs[..start])) + "::" + Join(':', Numerals(true, gs[start + n..]))
  {
    hide Groups;
    var gs := Groups(ip);
    var start := LongestRun(gs, 0, 0);
    var n := ZeroRun(gs, start);
    hide LongestRun, ZeroRun, Join, Numerals;
    if n >= 2 {
      hide Parts6;
      ShortenedTexts(gs, start, start + n);
      GapForm(gs[..start], gs[start + n..]);
    }
  }

  /** The groups are pairs of bytes, the high one first. */
  lemma GroupAt(ip: IP, i: nat)
    requires |ip| == 16 && i < 8
    ensures Groups(ip)[i] == 256 * ip[2 * i] as nat + ip[2 * i + 1] as nat
  {
  }

  lemma GapForm(left: seq<nat>, right: seq<nat>)
    ensures Join(':', GapTexts(left, right)) == Join(':', Numerals(true, left)) + "::" + Join(':', Numerals(true, right))
  {
    hide Join, Numerals;
    JoinShort(':');
    var before := if left == [] then [""] else Numerals(true, left);
    var after := if right == [] then [""] else Numerals(true, right);
    NoNumerals(left);
    NoNumerals(right);
    JoinAcross(':', before, [""] + after);
    JoinAcross(':', [""], after);
    assert GapTexts(left, right) == before + ([""] + after);
  }

  lemma NoNumerals(ns: seq<nat>)
    ensures ns == [] ==> Numerals(true, ns) == []
  {
  }

  lemma JoinShort(sep: char)
    ensures Join(sep, []) == "" && forall p :: Join(sep, [p]) == p
  {
  }

  // ---- any address

  /** net.IP.String. */
  function String(ip: IP): string
  {
    if |ip| == 0 then "<nil>"
    else if To4(ip).Some? then Text4(To4(ip).value)
    else if |ip| == 16 then Text6(ip)
    else "?" + Join('-', Numerals(true, ip))
  }

  /** net.ParseIP, on the texts that String prints. */
  function ParseIP(s: string): (r: Option<IP>)
    ensures r.Some? ==> (|r.value| == 4 || |r.value| == 16) && String(r.value) == s
  {
    var ip := if ':' in s then Decode6(s) else Decode4(s);
    if (|ip| == 4 || |ip| == 16) && String(ip) == s then Some(ip) else None
  }
}
