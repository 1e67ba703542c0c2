/**
 * The device identifier (utils/mac_address.py): a 48-bit node number written
 * as six colon-separated, upper-case hex pairs, and the normalisation of a
 * MAC string to that layout.
 *
 * Only the first branch of get_mac_address is modelled; what the
 * platform-specific scans (getmac, /sys/class/net, ifconfig) find is a
 * parameter.
 */
module MacAddress {
  import opened Wrappers
  import opened Text

  /** "Unknown-Device", written as its two words around the hyphen. */
  const UnknownDevice: string := "Unknown" + "-" + "Device"
  const AllZeroMac: string := "00:00:00:00:00:00"
  const BroadcastMac: string := "FF:FF:FF:FF:FF:FF"
  /** uuid.getnode() returns a 48-bit number. */
  const NodeLimit: nat := 0x1_0000_0000_0000

  function Pow16(w: nat): (p: nat)
    ensures p >= 1
  {
    if w == 0 then 1 else 16 * Pow16(w - 1)
  }

  lemma NodeLimitIsPow16()
    ensures Pow16(12) == NodeLimit
  {
    assert Pow16(4) == 0x1_0000;
    assert Pow16(8) == 0x1_0000_0000;
  }

  /** The digit `format(_, 'x')` writes for `d`. */
  function HexDigit(d: nat): (c: char)
    requires d < 16
  {
    if d < 10 then (d + '0' as int) as char else (d - 10 + 'a' as int) as char
  }

  predicate IsHexChar(c: char) {
    '0' <= c <= '9' || 'a' <= c <= 'f' || 'A' <= c <= 'F'
  }

  /** An upper-case hex digit, as `.upper()` leaves them. */
  predicate IsUpperHexChar(c: char) {
    '0' <= c <= '9' || 'A' <= c <= 'F'
  }

  /** The value of a hex digit of either case. */
  function HexValue(c: char): (v: nat)
    requires IsHexChar(c)
    ensures v < 16
  {
    if c <= '9' then c as int - '0' as int
    else if c <= 'F' then c as int - 'A' as int + 10
    else c as int - 'a' as int + 10
  }

  predicate IsHexString(s: string) {
    forall i :: 0 <= i < |s| ==> IsHexChar(s[i])
  }

  predicate IsUpperHexString(s: string) {
    forall i :: 0 <= i < |s| ==> IsUpperHexChar(s[i])
  }

  /** The number a string of hex digits denotes, most significant first. */
  function HexNumber(s: string): nat
    requires IsHexString(s)
  {
    if s == [] then 0 else 16 * HexNumber(s[..|s| - 1]) + HexValue(s[|s| - 1])
  }

  /** `format(n, '0{w}x')` for `n < 16^w`: exactly `w` lower-case digits denoting `n`. */
  function Hex(n: nat, w: nat): (s: string)
    requires n < Pow16(w)
    ensures |s| == w && IsHexString(s) && HexNumber(s) == n
    ensures forall i :: 0 <= i < |s| ==> '0' <= s[i] <= '9' || 'a' <= s[i] <= 'f'
  {
    if w == 0 then ""
    else
      HexSplit(n, w);
      var s := Hex(n / 16, w - 1) + [HexDigit(n % 16)];
      assert s[..|s| - 1] == Hex(n / 16, w - 1);
      HexDigitValue(n % 16);
      s
  }

  /** The leading digits of `n` take one fewer place. */
  lemma HexSplit(n: nat, w: nat)
    requires 0 < w && n < Pow16(w)
    ensures n / 16 < Pow16(w - 1) && n == 16 * (n / 16) + n % 16
  {
  }

  lemma HexDigitValue(d: nat)
    requires d < 16
    ensures IsHexChar(HexDigit(d)) && HexValue(HexDigit(d)) == d
    ensures '0' <= HexDigit(d) <= '9' || 'a' <= HexDigit(d) <= 'f'
  {
  }

  /** Upper-casing a hex string keeps its value and makes every digit upper-case. */
  lemma {:induction false} UpperHex(s: string)
    requires IsHexString(s)
    ensures IsUpperHexString(Upper(s)) && IsHexString(Upper(s)) && HexNumber(Upper(s)) == HexNumber(s)
    decreases |s|
  {
    if s != [] {
      var u := Upper(s);
      assert u[..|u| - 1] == Upper(s[..|s| - 1]);
      UpperHex(s[..|s| - 1]);
    }
  }

  /** Upper-case hex strings of one length are equal iff they denote the same number. */
  lemma {:induction false} HexNumberUnique(s: string, t: string)
    requires |s| == |t| && IsUpperHexString(s) && IsUpperHexString(t)
    requires IsHexString(s) && IsHexString(t) && HexNumber(s) == HexNumber(t)
    ensures s == t
    decreases |s|
  {
    if s != [] {
      var n := |s| - 1;
      assert HexValue(s[n]) == HexNumber(s) % 16 && HexNumber(s[..n]) == HexNumber(s) / 16;
      assert HexValue(t[n]) == HexNumber(t) % 16 && HexNumber(t[..n]) == HexNumber(t) / 16;
      HexNumberUnique(s[..n], t[..n]);
      assert s[n] == t[n];
      assert s == s[..n] + [s[n]] && t == t[..n] + [t[n]];
    }
  }

  /** A string of `w` copies of `c`. */
  function Repeat(c: char, w: nat): (s: string)
    ensures |s| == w && forall i :: 0 <= i < w ==> s[i] == c
  {
    seq(w, _ => c)
  }

  lemma {:induction false} RepeatNumber(c: char, w: nat)
    requires IsHexChar(c)
    ensures IsHexString(Repeat(c, w)) && 15 * HexNumber(Repeat(c, w)) == HexValue(c) * (Pow16(w) - 1)
    decreases w
  {
    if w > 0 {
      var s := Repeat(c, w);
      assert s[..w - 1] == Repeat(c, w - 1);
      RepeatNumber(c, w - 1);
      assert HexNumber(s) == 16 * HexNumber(Repeat(c, w - 1)) + HexValue(c);
      RepeatStep(HexValue(c), Pow16(w - 1), HexNumber(Repeat(c, w - 1)));
    }
  }

  /** One more digit `v` in front of the repunit count: the arithmetic step of `RepeatNumber`. */
  lemma RepeatStep(v: int, p: int, q: int)
    requires 15 * q == v * (p - 1)
    ensures 15 * (16 * q + v) == v * (16 * p - 1)
  {
    assert v * (16 * p - 1) == 16 * (v * (p - 1)) + 15 * v;
  }

  /** The separators `re.sub(r'[:-]', '', _)` deletes. */
  predicate IsSeparator(c: char) {
    c == ':' || c == '-'
  }

  /** `re.sub(r'[:-]', '', s)`. */
  function RemoveSeparators(s: string): (r: string)
    ensures |r| <= |s|
    ensures forall i :: 0 <= i < |r| ==> !IsSeparator(r[i])
    ensures forall c :: c in r ==> c in s
  {
    if s == [] then ""
    else (if IsSeparator(s[0]) then "" else [s[0]]) + RemoveSeparators(s[1..])
  }

  lemma {:induction false} RemoveSeparatorsAppend(a: string, b: string)
    ensures RemoveSeparators(a + b) == RemoveSeparators(a) + RemoveSeparators(b)
    decreases |a|
  {
    if a == [] {
      assert a + b == b;
    } else {
      assert (a + b)[1..] == a[1..] + b;
      RemoveSeparatorsAppend(a[1..], b);
    }
  }

  lemma {:induction false} RemoveSeparatorsNone(s: string)
    requires forall i :: 0 <= i < |s| ==> !IsSeparator(s[i])
    ensures RemoveSeparators(s) == s
    decreases |s|
  {
    if s != [] {
      RemoveSeparatorsNone(s[1..]);
    }
  }

  /** The pairs `s[i:i+2] for i in range(0, len(s), 2)`. */
  function Pairs(s: string): (p: seq<string>)
    requires |s| % 2 == 0
    ensures |p| == |s| / 2 && forall k :: 0 <= k < |p| ==> |p[k]| == 2
  {
    seq(|s| / 2, k requires 0 <= k < |s| / 2 => s[2 * k..2 * k + 2])
  }

  /** `':'.join(s[i:i+2] for i in range(0, 12, 2))`. */
  function ColonPairs(s: string): string
    requires |s| == 12
  {
    Join(":", Pairs(s))
  }

  /**
   * `r` is `h` written in colon-separated pairs: 17 characters, ':' at
   * positions 2, 5, 8, 11 and 14, and the twelve characters of `h` in order
   * at the others.
   */
  predicate Grouped(r: string, h: string) {
    |h| == 12 && |r| == 17
    && forall i :: 0 <= i < 17 ==> r[i] == if i % 3 == 2 then ':' else h[2 * (i / 3) + i % 3]
  }

  function Concat(parts: seq<string>): string {
    if parts == [] then "" else Concat(parts[..|parts| - 1]) + parts[|parts| - 1]
  }

  lemma {:induction false} JoinLayout(parts: seq<string>)
    requires parts != [] && forall k :: 0 <= k < |parts| ==> |parts[k]| == 2
    ensures |Join(":", parts)| == 3 * |parts| - 1
    ensures forall i :: 0 <= i < 3 * |parts| - 1 ==>
      Join(":", parts)[i] == if i % 3 == 2 then ':' else parts[i / 3][i % 3]
    decreases |parts|
  {
    if |parts| > 1 {
      var front := parts[..|parts| - 1];
      JoinLayout(front);
      var j := Join(":", parts);
      forall i | 0 <= i < 3 * |parts| - 1
        ensures j[i] == if i % 3 == 2 then ':' else parts[i / 3][i % 3]
      {
        if i >= 3 * |front| - 1 {
          assert i / 3 == |front| || i == 3 * |front| - 1;
        } else {
          assert front[i / 3] == parts[i / 3];
        }
      }
    }
  }

  lemma {:induction false} JoinWithoutSeparators(parts: seq<string>)
    requires parts != []
    requires forall k, i :: 0 <= k < |parts| && 0 <= i < |parts[k]| ==> !IsSeparator(parts[k][i])
    ensures RemoveSeparators(Join(":", parts)) == Concat(parts)
    decreases |parts|
  {
    var last := parts[|parts| - 1];
    RemoveSeparatorsNone(last);
    if |parts| == 1 {
      assert Concat(parts) == Concat([]) + last;
    } else {
      var front := parts[..|parts| - 1];
      assert forall k :: 0 <= k < |front| ==> front[k] == parts[k];
      JoinWithoutSeparators(front);
      var j := Join(":", front);
      assert Join(":", parts) == (j + ":") + last;
      RemoveSeparatorsAppend(j + ":", last);
      RemoveSeparatorsAppend(j, ":");
      assert RemoveSeparators(":") == "";
      assert Concat(parts) == Concat(front) + last;
    }
  }

  lemma {:induction false} ConcatPairs(s: string)
    requires |s| % 2 == 0
    ensures Concat(Pairs(s)) == s
    decreases |s|
  {
    if s != [] {
      var n := |s| - 2;
      forall k | 0 <= k < n / 2 ensures Pairs(s)[k] == Pairs(s[..n])[k] {
        assert s[..n][2 * k..2 * k + 2] == s[2 * k..2 * k + 2];
      }
      assert Pairs(s)[..|Pairs(s)| - 1] == Pairs(s[..n]);
      ConcatPairs(s[..n]);
      assert s == s[..n] + s[n..];
    }
  }

  lemma ColonPairsGrouped(h: string)
    requires |h| == 12
    ensures Grouped(ColonPairs(h), h)
  {
    JoinLayout(Pairs(h));
  }

  /** Grouping is one-to-one in both directions. */
  lemma GroupedUnique(r1: string, h1: string, r2: string, h2: string)
    requires Grouped(r1, h1) && Grouped(r2, h2)
    ensures r1 == r2 <==> h1 == h2
  {
    if r1 == r2 {
      forall j | 0 <= j < 12 ensures h1[j] == h2[j] {
        var i := 3 * (j / 2) + j % 2;
        assert r1[i] == h1[j] && r2[i] == h2[j];
      }
    }
  }

  lemma UpperGrouped(r: string, h: string)
    requires Grouped(r, h)
    ensures Grouped(Upper(r), Upper(h))
  {
  }

  /** The colon layout of twelve separator-free characters loses nothing once the colons are removed. */
  lemma RemoveSeparatorsOfGrouped(r: string, h: string)
    requires Grouped(r, h) && forall i :: 0 <= i < 12 ==> !IsSeparator(h[i])
    ensures RemoveSeparators(r) == h
  {
    ColonPairsGrouped(h);
    GroupedUnique(r, h, ColonPairs(h), h);
    JoinWithoutSeparators(Pairs(h));
    ConcatPairs(h);
  }


  /** `mac.upper()` with ':' and '-' removed. */
  function Clean(mac: string): string {
    RemoveSeparators(Upper(mac))
  }

  /** format_mac_address (`None` is Python's None). */
  function FormatMac(mac: Option<string>): (r: string)
    ensures mac == None || mac == Some("") ==> r == UnknownDevice
    ensures mac.Some? && mac.value != "" && |Clean(mac.value)| == 12 ==> Grouped(r, Clean(mac.value))
    ensures mac.Some? && mac.value != "" && |Clean(mac.value)| != 12 ==> r == mac.value
  {
    if mac == None || mac.value == "" then UnknownDevice
    else
      var clean := Clean(mac.value);
      if |clean| == 12 then
        ColonPairsGrouped(clean);
        ColonPairs(clean)
      else mac.value
  }

  /** Characters that `.upper()` and the separator removal leave alone. */
  predicate Settled(c: char) {
    UpperChar(c) == c && !IsSeparator(c)
  }

  /** Normalising the grouping of twelve settled characters gives it back. */
  lemma FormatGrouped(r: string, h: string)
    requires Grouped(r, h) && forall i :: 0 <= i < 12 ==> Settled(h[i])
    ensures FormatMac(Some(r)) == r
  {
    assert Upper(r) == r by {
      forall i | 0 <= i < 17 ensures Upper(r)[i] == r[i] {
        if i % 3 != 2 {
          assert Settled(h[2 * (i / 3) + i % 3]);
        }
      }
    }
    RemoveSeparatorsOfGrouped(r, h);
    ColonPairsGrouped(h);
    GroupedUnique(r, h, ColonPairs(h), h);
  }

  /** `.upper()` neither adds nor removes separators. */
  lemma {:induction false} UpperKeepsSeparators(s: string)
    ensures |RemoveSeparators(Upper(s))| == |RemoveSeparators(s)|
    decreases |s|
  {
    if s != [] {
      assert Upper(s)[1..] == Upper(s[1..]);
      assert IsSeparator(Upper(s)[0]) == IsSeparator(s[0]);
      UpperKeepsSeparators(s[1..]);
    }
  }

  lemma UnknownDeviceStays()
    ensures |Clean(UnknownDevice)| == 13
  {
    UpperKeepsSeparators(UnknownDevice);
    var a, b := "Unknown", "Device";
    forall i | 0 <= i < |a| ensures !IsSeparator(a[i]) {
      assert a[i] in {'U', 'n', 'k', 'o', 'w'} by {
        if i == 0 {} else if i == 1 {} else if i == 2 {} else if i == 3 {} else if i == 4 {} else if i == 5 {} else {}
      }
    }
    forall i | 0 <= i < |b| ensures !IsSeparator(b[i]) {
      assert b[i] in {'D', 'e', 'v', 'i', 'c'} by {
        if i == 0 {} else if i == 1 {} else if i == 2 {} else if i == 3 {} else if i == 4 {} else {}
      }
    }
    RemoveSeparatorsAppend(a + "-", b);
    RemoveSeparatorsAppend(a, "-");
    RemoveSeparatorsNone(a);
    RemoveSeparatorsNone(b);
    assert RemoveSeparators("-") == "";
  }

  /** format_mac_address is idempotent: normalising its result again changes nothing. */
  lemma FormatMacIdempotent(mac: Option<string>)
    ensures FormatMac(Some(FormatMac(mac))) == FormatMac(mac)
  {
    if mac == None || mac.value == "" {
      UnknownDeviceStays();
    } else {
      var clean := Clean(mac.value);
      if |clean| == 12 {
        forall i | 0 <= i < 12 ensures Settled(clean[i]) {
          assert clean[i] in clean;
          assert clean[i] in Upper(mac.value);
          var j :| 0 <= j < |mac.value| && Upper(mac.value)[j] == clean[i];
        }
        FormatGrouped(FormatMac(mac), clean);
      }
    }
  }

  /**
   * The first branch of get_mac_address: `format(node, '012x')` in colon
   * pairs, upper-cased.
   */
  function NodeMac(node: nat): (r: string)
    requires node < NodeLimit
    ensures |r| == 17
  {
    NodeLimitIsPow16();
    var mac := Upper(ColonPairs(Hex(node, 12)));
    ColonPairsGrouped(Hex(node, 12));
    UpperGrouped(ColonPairs(Hex(node, 12)), Hex(node, 12));
    mac
  }

  /** The layout of a node's MAC: the twelve upper-case hex digits of `node`, in colon pairs. */
  lemma NodeMacLayout(node: nat) returns (h: string)
    requires node < NodeLimit
    ensures Grouped(NodeMac(node), h) && IsUpperHexString(h) && IsHexString(h) && HexNumber(h) == node
  {
    NodeLimitIsPow16();
    var x := Hex(node, 12);
    h := Upper(x);
    ColonPairsGrouped(x);
    UpperGrouped(ColonPairs(x), x);
    UpperHex(x);
  }

  /** Different nodes get different MACs, and the MAC of a node is already normalised. */
  lemma NodeMacInjective(a: nat, b: nat)
    requires a < NodeLimit && b < NodeLimit
    ensures NodeMac(a) == NodeMac(b) <==> a == b
  {
    var ha := NodeMacLayout(a);
    var hb := NodeMacLayout(b);
    GroupedUnique(NodeMac(a), ha, NodeMac(b), hb);
    if a == b {
      HexNumberUnique(ha, hb);
    }
  }

  lemma NodeMacFormatted(node: nat)
    requires node < NodeLimit
    ensures FormatMac(Some(NodeMac(node))) == NodeMac(node)
  {
    var h := NodeMacLayout(node);
    FormatGrouped(NodeMac(node), h);
  }

  /** The MAC written for a node whose twelve digits are all `c`. */
  lemma NodeMacOfRepeat(node: nat, c: char, r: string)
    requires node < NodeLimit && IsUpperHexChar(c)
    requires 15 * node == HexValue(c) * (Pow16(12) - 1)
    requires Grouped(r, Repeat(c, 12))
    ensures NodeMac(node) == r
  {
    var h := NodeMacLayout(node);
    RepeatNumber(c, 12);
    HexNumberUnique(h, Repeat(c, 12));
    GroupedUnique(NodeMac(node), h, r, Repeat(c, 12));
  }

  lemma SpecialMacs()
    ensures Grouped(AllZeroMac, Repeat('0', 12)) && Grouped(BroadcastMac, Repeat('F', 12))
  {
    forall i | 0 <= i < 17
      ensures AllZeroMac[i] == (if i % 3 == 2 then ':' else '0')
      ensures BroadcastMac[i] == (if i % 3 == 2 then ':' else 'F')
    {
      if i == 2 || i == 5 || i == 8 || i == 11 || i == 14 {
      } else {
        assert i % 3 != 2;
      }
    }
  }

  /**
   * The first branch of get_mac_address: the node's MAC unless it is
   * 00:00:00:00:00:00 or FF:FF:FF:FF:FF:FF, which are rejected exactly for the
   * all-zero and the all-ones node.
   */
  function MacFromNode(node: nat): (r: Option<string>)
    requires node < NodeLimit
    ensures r.None? <==> node == 0 || node == NodeLimit - 1
    ensures r.Some? ==> r.value == NodeMac(node) && FormatMac(r) == r.value
  {
    var mac := NodeMac(node);
    SpecialMacs();
    NodeLimitIsPow16();
    NodeMacOfRepeat(0, '0', AllZeroMac);
    NodeMacOfRepeat(NodeLimit - 1, 'F', BroadcastMac);
    NodeMacInjective(node, 0);
    NodeMacInjective(node, NodeLimit - 1);
    NodeMacFormatted(node);
    if mac != AllZeroMac && mac != BroadcastMac then Some(mac) else None
  }

  /**
   * get_mac_address: the node's MAC when the first branch accepts it, else
   * what the platform scan found, else "Unknown-Device" (also the answer on
   * any exception, which `scanned == None` stands for as well).
   */
  function GetMacAddress(node: nat, scanned: Option<string>): (r: string)
    requires node < NodeLimit
    ensures node != 0 && node != NodeLimit - 1 ==> r == NodeMac(node)
    ensures (node == 0 || node == NodeLimit - 1) ==> r == if scanned.Some? then scanned.value else UnknownDevice
  {
    match MacFromNode(node)
    case Some(mac) => mac
    case None => if scanned.Some? then scanned.value else UnknownDevice
  }
}
