/** Addresses with a prefix length, as net.IPNet prints them: what the bridge plugin compares. */
module Networks {
  import opened Types
  import opened Bytes
  import opened Text
  import opened Keys
  import opened Subnets

  /** A well-formed address with a prefix length of its own version. */
  predicate Proper(net: IPNet)
  {
    WellFormed(net.ip) && net.bits == 8 * |net.ip| && net.ones <= net.bits
  }

  function FamilyOf(ip: IP): Family
  {
    if To4(ip).Some? then V4 else V6
  }

  /** A result entry whose gateway is of its address's version. */
  predicate Matched(c: IPConfig)
  {
    Proper(c.address) && WellFormed(c.gateway) && |c.gateway| == |c.address.ip|
  }

  ghost predicate AllMatched(cs: seq<IPConfig>)
  {
    forall i :: 0 <= i < |cs| ==> Matched(cs[i])
  }

  /** net.IPNet.String. */
  function CIDR(net: IPNet): string
  {
    String(net.ip) + "/" + Numeral(false, net.ones)
  }

  lemma {:induction false} JoinCharacters(sep: char, parts: seq<string>)
    requires forall p :: p in parts ==> DigitsOnly(p)
    ensures forall c :: c in Join(sep, parts) ==> c == sep || '0' <= c <= '9' || 'a' <= c <= 'f'
  {
    if |parts| > 0 {
      assert DigitsOnly(parts[0]);
      JoinCharacters(sep, parts[1..]);
    }
  }

  lemma NoSlash(ip: IP)
    requires WellFormed(ip)
    ensures '/' !in String(ip)
  {
    if |ip| == 4 {
      ReadNumeralsBack(false, ip);
      JoinCharacters('.', Numerals(false, ip));
    } else {
      var gs := Groups(ip);
      ReadGroupsBack(gs, LongestRun(gs, 0, 0));
      JoinCharacters(':', Parts6(gs, LongestRun(gs, 0, 0)));
    }
  }

  lemma StringInjective(a: IP, b: IP)
    requires WellFormed(a) && WellFormed(b) && String(a) == String(b)
    ensures a == b
  {
    hide String, ParseIP;
    AddressOf(if |a| == 4 then V4 else V6, a);
    AddressOf(if |b| == 4 then V4 else V6, b);
    ParsesBack(if |a| == 4 then V4 else V6, Value(a));
    ParsesBack(if |b| == 4 then V4 else V6, Value(b));
  }

  /** Two networks print alike exactly when they are the same. */
  lemma CIDRInjective(a: IPNet, b: IPNet)
    requires Proper(a) && Proper(b)
    ensures CIDR(a) == CIDR(b) <==> a == b
  {
    hide String, Numeral;
    if CIDR(a) == CIDR(b) {
      NoSlash(a.ip);
      NoSlash(b.ip);
      SplitAtFirst('/', String(a.ip), Numeral(false, a.ones));
      SplitAtFirst('/', String(b.ip), Numeral(false, b.ones));
      assert String(a.ip) == Split('/', CIDR(a))[0];
      ReadBack(false, a.ones);
      ReadBack(false, b.ones);
      StringInjective(a.ip, b.ip);
      assert Split('/', CIDR(a))[1..] == Split('/', Numeral(false, a.ones));
      Slashless(a.ones);
      Slashless(b.ones);
    }
  }

  lemma Slashless(n: nat)
    ensures Split('/', Numeral(false, n)) == [Numeral(false, n)]
  {
    hide Numeral;
    ReadBack(false, n);
    SplitAtFirst('/', Numeral(false, n), "");
  }
}
