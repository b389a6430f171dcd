/**
 The printed chat id and its parser (GetInternalChatID and DerivePeerID in
 src/repo/chat/main.go), with the Go number formatting and parsing they rely on.
 */
module ChatId {
  import opened Wrappers

  const CHAT_BASE: int := 2_000_000_000
  const MAX_U64: int := 0xFFFF_FFFF_FFFF_FFFF
  const MAX_I64: int := 0x7FFF_FFFF_FFFF_FFFF
  const MIN_I64: int := -0x8000_0000_0000_0000

  predicate IsInt64(x: int) {
    MIN_I64 <= x <= MAX_I64
  }

  // ---------------------------------------------------------------------------
  // strconv and strings

  function DigitChar(d: nat): char
    requires d < 10
  {
    ('0' as int + d) as char
  }

  predicate IsDigit(c: char) {
    '0' <= c <= '9'
  }

  function DigitValue(c: char): nat
    requires IsDigit(c)
  {
    c as int - '0' as int
  }

  function FormatNat(n: nat): string {
    if n < 10 then [DigitChar(n)] else FormatNat(n / 10) + [DigitChar(n % 10)]
  }

  function FormatInt(x: int): string {
    if x < 0 then "-" + FormatNat(-x) else FormatNat(x)
  }

  /** What ParseUint leaves behind: 0 on a syntax error, the largest value on overflow. */
  function ParseUintFrom(s: string, acc: nat): nat {
    if s == [] then acc
    else if !IsDigit(s[0]) then 0
    else
      var next := acc * 10 + DigitValue(s[0]);
      if next > MAX_U64 then MAX_U64 else ParseUintFrom(s[1..], next)
  }

  /** strconv.ParseInt(s, 10, 64) with its error dropped. */
  function ParseInt(s: string): int {
    if s == "" then 0
    else
      var negative := s[0] == '-';
      var digits := if s[0] == '-' || s[0] == '+' then s[1..] else s;
      var u: int := ParseUintFrom(digits, 0);
      if !negative && u > MAX_I64 then MAX_I64
      else if negative && u > -MIN_I64 then MIN_I64
      else if negative then -u
      else u
  }

  /** strings.Split with a one-character separator. */
  function Split(s: string, sep: char): (parts: seq<string>)
    ensures parts != []
  {
    if s == [] then [[]]
    else
      var rest := Split(s[1..], sep);
      if s[0] == sep then [[]] + rest else [[s[0]] + rest[0]] + rest[1..]
  }

  predicate HasPrefix(s: string, prefix: string) {
    prefix <= s
  }

  // ---------------------------------------------------------------------------
  // Chat ids

  function GetInternalChatID(peerID: int, currentUserID: int): string {
    if peerID > CHAT_BASE then "c" + FormatInt(peerID - CHAT_BASE)
    else if peerID < 0 || currentUserID < 0 then
      if peerID < 0 then "g" + FormatInt(peerID) + "_" + FormatInt(currentUserID)
      else "g" + FormatInt(currentUserID) + "_" + FormatInt(peerID)
    else if currentUserID > peerID then
      "dm" + FormatInt(peerID) + "_" + FormatInt(currentUserID)
    else
      "dm" + FormatInt(currentUserID) + "_" + FormatInt(peerID)
  }

  /** None is the out-of-range panic on a "dm" id without an underscore. */
  function DerivePeerID(chatID: string, currentUserID: int): Option<int> {
    if HasPrefix(chatID, "c") then Some(ParseInt(chatID[1..]) + CHAT_BASE)
    else if HasPrefix(chatID, "g") then
      var parts := Split(chatID[1..], '_');
      if |parts| < 2 then Some(0) else Some(OtherSide(parts, currentUserID))
    else if HasPrefix(chatID, "dm") then
      var parts := Split(chatID[2..], '_');
      if |parts| < 2 then None else Some(OtherSide(parts, currentUserID))
    else Some(0)
  }

  function OtherSide(parts: seq<string>, currentUserID: int): int
    requires |parts| >= 2
  {
    if ParseInt(parts[0]) == currentUserID then ParseInt(parts[1]) else ParseInt(parts[0])
  }

  // ---------------------------------------------------------------------------
  // Numbers survive printing

  lemma {:induction false} FormatNatDigits(n: nat)
    ensures FormatNat(n) != []
    ensures forall i :: 0 <= i < |FormatNat(n)| ==> IsDigit(FormatNat(n)[i])
  {
    if n >= 10 {
      FormatNatDigits(n / 10);
    }
  }

  lemma {:induction false} ParsePrinted(n: nat, t: string)
    requires n <= MAX_U64
    ensures ParseUintFrom(FormatNat(n) + t, 0) == ParseUintFrom(t, n)
  {
    if n < 10 {
      assert ([DigitChar(n)] + t)[1..] == t;
    } else {
      var last := [DigitChar(n % 10)] + t;
      assert FormatNat(n) + t == FormatNat(n / 10) + last;
      ParsePrinted(n / 10, last);
      assert last[1..] == t;
    }
  }

  lemma ParseFormat(x: int)
    requires IsInt64(x)
    ensures ParseInt(FormatInt(x)) == x
  {
    var n := if x < 0 then -x else x;
    FormatNatDigits(n);
    ParsePrinted(n, []);
    assert FormatNat(n) + [] == FormatNat(n);
    assert x < 0 ==> FormatInt(x)[1..] == FormatNat(n);
  }

  lemma FormatHasNoUnderscore(x: int)
    ensures '_' !in FormatInt(x)
  {
    FormatNatDigits(if x < 0 then -x else x);
  }

  lemma {:induction false} SplitNone(s: string, sep: char)
    requires sep !in s
    ensures Split(s, sep) == [s]
  {
    if s != [] {
      SplitNone(s[1..], sep);
      assert s == [s[0]] + s[1..];
    }
  }

  lemma {:induction false} SplitFirst(a: string, b: string, sep: char)
    requires sep !in a
    ensures Split(a + [sep] + b, sep) == [a] + Split(b, sep)
  {
    var s := a + [sep] + b;
    if a == [] {
      assert s[1..] == b;
    } else {
      assert s[1..] == a[1..] + [sep] + b;
      SplitFirst(a[1..], b, sep);
      assert a == [a[0]] + a[1..];
    }
  }

  /** The two numerals of a two-party id come back as printed. */
  lemma SplitPair(x: int, y: int)
    requires IsInt64(x) && IsInt64(y)
    ensures var parts := Split(FormatInt(x) + "_" + FormatInt(y), '_');
            |parts| == 2 && ParseInt(parts[0]) == x && ParseInt(parts[1]) == y
  {
    FormatHasNoUnderscore(x);
    FormatHasNoUnderscore(y);
    SplitFirst(FormatInt(x), FormatInt(y), '_');
    SplitNone(FormatInt(y), '_');
    ParseFormat(x);
    ParseFormat(y);
  }

  // ---------------------------------------------------------------------------
  // Main results

  /** The prefix of a two-party id and the numbers it prints, in order. */
  function Halves(peerID: int, currentUserID: int): (string, int, int) {
    if peerID < 0 then ("g", peerID, currentUserID)
    else if currentUserID < 0 then ("g", currentUserID, peerID)
    else if currentUserID > peerID then ("dm", peerID, currentUserID)
    else ("dm", currentUserID, peerID)
  }

  lemma HalvesPrint(peerID: int, currentUserID: int)
    requires peerID <= CHAT_BASE
    ensures var (prefix, x, y) := Halves(peerID, currentUserID);
            GetInternalChatID(peerID, currentUserID) == prefix + (FormatInt(x) + "_" + FormatInt(y))
  {
    var (prefix, x, y) := Halves(peerID, currentUserID);
    assert prefix + FormatInt(x) + "_" + FormatInt(y) == prefix + (FormatInt(x) + "_" + FormatInt(y));
  }

  lemma DeriveTwoParty(prefix: string, x: int, y: int, currentUserID: int)
    requires prefix == "g" || prefix == "dm"
    requires IsInt64(x) && IsInt64(y)
    ensures DerivePeerID(prefix + (FormatInt(x) + "_" + FormatInt(y)), currentUserID)
            == Some(if x == currentUserID then y else x)
  {
    var tail := FormatInt(x) + "_" + FormatInt(y);
    SplitPair(x, y);
    assert (prefix + tail)[0] == prefix[0];
    assert (prefix + tail)[|prefix|..] == tail;
    assert prefix == "dm" ==> HasPrefix(prefix + tail, "dm");
  }

  lemma DeriveGroup(n: int, currentUserID: int)
    requires IsInt64(n)
    ensures DerivePeerID("c" + FormatInt(n), currentUserID) == Some(n + CHAT_BASE)
  {
    ParseFormat(n);
    assert ("c" + FormatInt(n))[1..] == FormatInt(n);
  }

  /** Parsing the printed id gives back the peer, from the point of view that printed it. */
  lemma DerivesThePeer(peerID: int, currentUserID: int)
    requires IsInt64(peerID) && IsInt64(currentUserID)
    requires peerID != 0 && currentUserID != 0
    ensures DerivePeerID(GetInternalChatID(peerID, currentUserID), currentUserID) == Some(peerID)
  {
    if peerID > CHAT_BASE {
      DeriveGroup(peerID - CHAT_BASE, currentUserID);
    } else {
      var (prefix, x, y) := Halves(peerID, currentUserID);
      HalvesPrint(peerID, currentUserID);
      DeriveTwoParty(prefix, x, y, currentUserID);
    }
  }

  /** Two users, or a user and a community. */
  predicate TwoParty(a: int, b: int) {
    && IsInt64(a) && IsInt64(b)
    && (0 < a <= CHAT_BASE || a < 0) && (0 < b <= CHAT_BASE || b < 0)
    && (a > 0 || b > 0)
  }

  /** Both sides of a two-party dialogue print the same id. */
  lemma BothSidesAgree(a: int, b: int)
    requires TwoParty(a, b)
    ensures GetInternalChatID(a, b) == GetInternalChatID(b, a)
  {
  }

  /** Two printed pairs that read alike have the same prefix and the same numbers in the same order. */
  lemma SamePrint(p: string, x: int, y: int, q: string, z: int, w: int)
    requires (p == "g" || p == "dm") && (q == "g" || q == "dm")
    requires IsInt64(x) && IsInt64(y) && IsInt64(z) && IsInt64(w)
    requires p + (FormatInt(x) + "_" + FormatInt(y)) == q + (FormatInt(z) + "_" + FormatInt(w))
    ensures p == q && x == z && y == w
  {
    var s, t := FormatInt(x) + "_" + FormatInt(y), FormatInt(z) + "_" + FormatInt(w);
    assert (p + s)[0] == p[0] && (q + t)[0] == q[0];
    assert (p + s)[|p|..] == s && (q + t)[|q|..] == t;
    SplitPair(x, y);
    SplitPair(z, w);
  }

  lemma GroupPrefix(p: string, rest: string, n: int)
    requires p == "g" || p == "dm"
    ensures p + rest != "c" + FormatInt(n)
  {
    assert (p + rest)[0] == p[0] && ("c" + FormatInt(n))[0] == 'c';
  }

  /** Different two-party dialogues print different ids, and none prints a group chat's id. */
  lemma DifferentPairsDiffer(a: int, b: int, c: int, d: int)
    requires TwoParty(a, b)
    requires IsInt64(c) && IsInt64(d)
    requires TwoParty(c, d) || c > CHAT_BASE
    requires GetInternalChatID(a, b) == GetInternalChatID(c, d)
    ensures (a == c && b == d) || (a == d && b == c)
  {
    var (p, x, y) := Halves(a, b);
    HalvesPrint(a, b);
    if c <= CHAT_BASE {
      var (q, z, w) := Halves(c, d);
      HalvesPrint(c, d);
      SamePrint(p, x, y, q, z, w);
    } else {
      GroupPrefix(p, FormatInt(x) + "_" + FormatInt(y), c - CHAT_BASE);
    }
  }

  /** Two communities do not share an id: each side prints its own. */
  lemma CommunitiesDisagree(a: int, b: int)
    requires MIN_I64 <= a < 0 && MIN_I64 <= b < 0
    ensures GetInternalChatID(a, b) == GetInternalChatID(b, a) <==> a == b
  {
    HalvesPrint(a, b);
    HalvesPrint(b, a);
    SplitPair(a, b);
    SplitPair(b, a);
    var id := GetInternalChatID(a, b);
    assert id[1..] == FormatInt(a) + "_" + FormatInt(b);
    assert GetInternalChatID(b, a)[1..] == FormatInt(b) + "_" + FormatInt(a);
  }
}
