/** The keys under which the store keeps addresses and cursors, and their order. */
module Keys {
  import opened Wrappers
  import opened Types
  import opened Bits
  import opened Bytes
  import opened Text

  /** The prefix by which IPv4 records are listed: the code takes every IPv4 text to start so. */
  const IP_PREFIX := "1"
  const IP_PREFIX_V6 := "6"
  const LAST_KNOWN_IP_KEY := "lastKnownIP"
  const LAST_KNOWN_IPV6_KEY := "lastKnownIPv6"

  function Width(family: Family): nat
  {
    if family == V4 then 4 else 16
  }

  /** The address a number stands for. */
  function Address(family: Family, a: nat): (ip: IP)
    ensures |ip| == Width(family)
  {
    Spell(Width(family), a)
  }

  /** The numbers of a family's addresses; a mapped IPv4 address is not an IPv6 one. */
  predicate Plain(family: Family, a: nat)
  {
    a < Pow2(8 * Width(family)) && (family == V6 ==> To4(Address(family, a)).None?)
  }

  function Key(family: Family, a: nat): string
  {
    if family == V4 then String(Address(family, a)) else IP_PREFIX_V6 + String(Address(family, a))
  }

  function CursorKey(family: Family): string
  {
    if family == V4 then LAST_KNOWN_IP_KEY else LAST_KNOWN_IPV6_KEY
  }

  lemma AddressOf(family: Family, ip: IP)
    requires |ip| == Width(family) && (family == V6 ==> To4(ip).None?)
    ensures Address(family, Value(ip)) == ip && Plain(family, Value(ip))
  {
    SpellValue(ip);
    ValueBound(ip);
  }

  /** Round trip: what String prints for an address, ParseIP reads as that address. */
  lemma ParsesBack(family: Family, a: nat)
    requires Plain(family, a)
    ensures ParseIP(String(Address(family, a))) == Some(Address(family, a))
    ensures Value(Address(family, a)) == a
    ensures ':' in String(Address(family, a)) <==> family == V6
  {
    var ip := Address(family, a);
    ValueSpell(Width(family), a);
    if family == V4 {
      Text4RoundTrip(ip);
      Text4Shape(ip);
    } else {
      Text6RoundTrip(ip);
    }
  }

  lemma {:induction false} JoinShape(parts: seq<string>)
    requires forall p :: p in parts ==> DigitsOnly(p)
    ensures ':' !in Join('.', parts)
    ensures |parts| > 0 && parts[0] != "" ==> Join('.', parts) != "" && Join('.', parts)[0] == parts[0][0]
  {
    if |parts| > 0 {
      assert parts[0] in parts;
      JoinShape(parts[1..]);
    }
  }

  lemma Text4Shape(ip: IP)
    requires |ip| == 4
    ensures ':' !in Text4(ip) && Text4(ip) != "" && '0' <= Text4(ip)[0] <= '9'
    ensures Text4(ip)[0] == Numeral(false, ip[0])[0]
  {
    ReadNumeralsBack(false, ip);
    ReadBack(false, ip[0]);
    JoinShape(Numerals(false, ip));
  }

  /** No address prints as the empty text or as the key of a cursor. */
  lemma TextIsNoCursor(ip: IP, f: Family)
    ensures String(ip) != "" && String(ip) != CursorKey(f) && "6" + String(ip) != CursorKey(f)
  {
    hide String;
    TextShape(ip);
    assert CursorKey(f)[0] == 'l' && ':' !in CursorKey(f);
    assert ("6" + String(ip))[0] == '6';
  }

  lemma TextShape(ip: IP)
    ensures String(ip) != "" && (String(ip)[0] != 'l' || ':' in String(ip))
  {
    hide Text4, Text6, Join, Numerals;
    if |ip| == 0 {
      assert String(ip) == "<nil>";
    } else if To4(ip).Some? {
      Text4Shape(To4(ip).value);
    } else if |ip| == 16 {
      Text6RoundTrip(ip);
    } else {
      assert String(ip)[0] == '?';
    }
  }

  /** First octets whose decimal text starts with 1. */
  predicate LeadingOne(octet: nat)
  {
    octet == 1 || 10 <= octet <= 19 || 100 <= octet <= 199
  }

  function LeadingDigit(octet: nat): nat
  {
    if octet < 10 then octet else if octet < 100 then octet / 10 else octet / 100
  }

  lemma FirstDigit(octet: nat)
    requires octet < 256
    ensures Numeral(false, octet)[0] == Digit(LeadingDigit(octet))
    ensures Numeral(false, octet)[0] == '1' <==> LeadingOne(octet)
    ensures Numeral(false, octet)[0] == '6' <==> LeadingDigit(octet) == 6
  {
    if octet < 10 {
      DigitBack(octet);
    } else if octet < 100 {
      assert Numeral(false, octet) == Numeral(false, octet / 10) + [Digit(octet % 10)];
      DigitBack(octet / 10);
    } else {
      var tens := octet / 10;
      assert Numeral(false, octet) == Numeral(false, tens) + [Digit(octet % 10)];
      assert Numeral(false, tens) == Numeral(false, tens / 10) + [Digit(tens % 10)];
      DigitBack(tens / 10);
    }
  }

  /** What a key looks like: only IPv6 keys contain a colon, and they start with 6. */
  lemma KeyShape(f: Family, a: nat)
    requires Plain(f, a)
    ensures Key(f, a) != "" && Key(f, a)[0] != 'l'
    ensures ':' in Key(f, a) <==> f == V6
    ensures f == V6 ==> Key(f, a)[0] == '6' && Key(f, a)[1..] == String(Address(f, a))
    ensures f == V4 ==> (Key(f, a)[0] == '1' <==> LeadingOne(Address(f, a)[0]))
    ensures f == V4 ==> (Key(f, a)[0] == '6' <==> LeadingDigit(Address(f, a)[0]) == 6)
  {
    ParsesBack(f, a);
    if f == V4 {
      Text4Shape(Address(f, a));
      FirstDigit(Address(f, a)[0]);
    }
  }

  /**
   The prefixes tell the families apart only where IPv4 texts start with 1: one that starts
   with 6 is listed among the IPv6 records, any other is not listed at all.
   */
  lemma ListedUnderPrefix(f: Family, a: nat)
    requires Plain(f, a)
    ensures IP_PREFIX <= Key(f, a) <==> f == V4 && LeadingOne(Address(f, a)[0])
    ensures IP_PREFIX_V6 <= Key(f, a) <==> f == V6 || LeadingDigit(Address(f, a)[0]) == 6
  {
    KeyShape(f, a);
  }

  /** The number of the address a key names. */
  function ReadKey(f: Family, key: string): nat
  {
    var ip := ParseIP(if f == V6 && key != "" then key[1..] else key);
    if ip.Some? then Value(ip.value) else 0
  }

  lemma ReadKeyBack(f: Family, a: nat)
    requires Plain(f, a)
    ensures ReadKey(f, Key(f, a)) == a
  {
    ParsesBack(f, a);
    assert (if f == V6 then Key(f, a)[1..] else Key(f, a)) == String(Address(f, a));
  }

  lemma NotACursorKey(f: Family, a: nat, g: Family)
    requires Plain(f, a)
    ensures Key(f, a) != CursorKey(g)
  {
    KeyShape(f, a);
  }

  /** Namespaces: the two families' keys and the two cursor keys never coincide. */
  lemma KeysDistinct(f: Family, a: nat, g: Family, b: nat)
    requires Plain(f, a) && Plain(g, b)
    ensures Key(f, a) == Key(g, b) ==> f == g && a == b
    ensures Key(f, a) != CursorKey(g)
  {
    hide Key, Plain, ReadKey;
    NotACursorKey(f, a, g);
    KeyShape(f, a);
    KeyShape(g, b);
    ReadKeyBack(f, a);
    ReadKeyBack(g, b);
  }

  // ---- the order of keys

  /** Bytewise order of texts, which is the order in which the store lists keys. */
  predicate Precedes(s: string, t: string)
  {
    s == "" || (t != "" && (s[0] < t[0] || (s[0] == t[0] && Precedes(s[1..], t[1..]))))
  }

  lemma {:induction false} PrecedesTotal(s: string, t: string)
    ensures Precedes(s, t) || Precedes(t, s)
    ensures Precedes(s, t) && Precedes(t, s) ==> s == t
  {
    if s != "" && t != "" {
      PrecedesTotal(s[1..], t[1..]);
      assert s == [s[0]] + s[1..] && t == [t[0]] + t[1..];
    }
  }

  lemma {:induction false} PrecedesTransitive(s: string, t: string, u: string)
    requires Precedes(s, t) && Precedes(t, u)
    ensures Precedes(s, u)
  {
    if s != "" && s[0] == t[0] == u[0] {
      PrecedesTransitive(s[1..], t[1..], u[1..]);
    }
  }

  /** Of two texts that first differ in one character, the one with the smaller comes first, and a text before its extensions. */
  lemma {:induction false} PrecedesByFirstDifference(p: string, a: char, s: string, b: char, t: string)
    requires a != b
    ensures Precedes(p + [a] + s, p + [b] + t) <==> a < b
    ensures Precedes(p, p + [a] + s) && !Precedes(p + [a] + s, p)
  {
    if p != "" {
      PrecedesByFirstDifference(p[1..], a, s, b, t);
      assert (p + [a] + s)[1..] == p[1..] + [a] + s && (p + [b] + t)[1..] == p[1..] + [b] + t;
    }
  }

  ghost predicate IsLeast(keys: set<string>, k: string)
  {
    k in keys && forall j :: j in keys ==> Precedes(k, j)
  }

  lemma {:induction false} LeastExists(keys: set<string>)
    requires keys != {}
    ensures exists k :: IsLeast(keys, k)
  {
    var x :| x in keys;
    PrecedesTotal(x, x);
    var rest := keys - {x};
    if rest == {} {
      assert keys == {x};
      assert IsLeast(keys, x);
    } else {
      LeastExists(rest);
      var k :| IsLeast(rest, k);
      PrecedesTotal(k, x);
      if Precedes(k, x) {
        assert IsLeast(keys, k);
      } else {
        forall j | j in rest
          ensures Precedes(x, j)
        {
          PrecedesTransitive(x, k, j);
        }
        assert IsLeast(keys, x);
      }
    }
  }

  /** Of some addresses, the one whose key is listed first. */
  ghost predicate ListedFirst(family: Family, s: set<nat>, a: nat)
  {
    a in s && forall b :: b in s ==> Precedes(Key(family, a), Key(family, b))
  }

  lemma ListedFirstExists(family: Family, s: set<nat>)
    requires s != {}
    ensures exists a :: ListedFirst(family, s, a)
  {
    var keys := set a | a in s :: Key(family, a);
    var x :| x in s;
    assert Key(family, x) in keys;
    LeastExists(keys);
    var k :| IsLeast(keys, k);
    var a :| a in s && Key(family, a) == k;
    assert ListedFirst(family, s, a);
  }
}
