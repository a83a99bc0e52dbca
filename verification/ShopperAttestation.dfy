/**
 * The token that attests a shopper's address (packages/http/src/shopper-attestation.ts): address, expiry and mac,
 * joined by `~`. The mac is any function of the text before it whose output has no `~`, as base64url has none.
 */
module ShopperAttestation {
  import opened TextSplit
  import opened Wrappers

  const MAX_SAFE_INTEGER: nat := 9007199254740991

  type Mac = string -> string

  ghost predicate IsMac(mac: Mac) { forall body :: '~' !in mac(body) }

  // -------------------------------------------------------------------------------------------------------------
  // Decimal text
  // -------------------------------------------------------------------------------------------------------------

  function DigitOf(n: nat): char
    requires n < 10
  {
    "0123456789"[n]
  }

  predicate IsDigit(c: char) { '0' <= c <= '9' }

  /** The digits of a number, without leading zeros. */
  function Digits(n: nat): string { if n < 10 then [DigitOf(n)] else Digits(n / 10) + [DigitOf(n % 10)] }

  function Printed(n: int): string { if n < 0 then "-" + Digits(-n) else Digits(n) }

  /** The number a text of digits stands for. */
  function NumberOf(text: string): nat
    requires forall c :: c in text ==> IsDigit(c)
  {
    if text == [] then 0
    else
      var last := text[|text| - 1];
      assert last in text && IsDigit(last);
      10 * NumberOf(text[..|text| - 1]) + (last as int - '0' as int)
  }

  predicate AllDigits(text: string) { text != [] && forall c :: c in text ==> IsDigit(c) }

  lemma {:induction false} DigitsRoundTrip(n: nat)
    ensures AllDigits(Digits(n)) && NumberOf(Digits(n)) == n
    decreases n
  {
    if n >= 10 {
      DigitsRoundTrip(n / 10);
      assert Digits(n)[..|Digits(n)| - 1] == Digits(n / 10);
    }
  }

  // -------------------------------------------------------------------------------------------------------------
  // Tokens
  // -------------------------------------------------------------------------------------------------------------

  function Sign(mac: Mac, ip: string, expires: int): string {
    var body := ip + "~" + Printed(expires);
    body + "~" + mac(body)
  }

  function Mint(mac: Mac, ttlMs: int, ip: string, now: int): string { Sign(mac, ip, now + ttlMs) }

  /** The address of a live token; none where the source answers null. */
  function Verify(mac: Mac, token: string, now: int): Option<string> {
    var segments := SplitOn('~', token);
    if |segments| != 3 then None
    else
      var ip, expiresText := segments[0], segments[1];
      if ip == "" || !AllDigits(expiresText) then None
      else
        var expires := NumberOf(expiresText);
        if expires > MAX_SAFE_INTEGER || now >= expires then None
        else if Sign(mac, ip, expires) != token then None
        else Some(ip)
  }

  lemma SignedSegments(mac: Mac, ip: string, expires: nat)
    requires IsMac(mac) && '~' !in ip
    ensures SplitOn('~', Sign(mac, ip, expires)) == [ip, Digits(expires), mac(ip + "~" + Digits(expires))]
  {
    DigitsRoundTrip(expires);
    var digits, sum := Digits(expires), mac(ip + "~" + Digits(expires));
    assert Sign(mac, ip, expires) == ip + ['~'] + (digits + ['~'] + sum);
    FirstSegment('~', ip, digits + ['~'] + sum);
    FirstSegment('~', digits, sum);
    FirstSegment('~', sum, "");
  }

  /** What a token attests at a time: the text signed for an address and a safe expiry still ahead. */
  ghost predicate Attests(mac: Mac, token: string, ip: string, now: int) {
    ip != "" && '~' !in ip && exists expires: nat :: now < expires <= MAX_SAFE_INTEGER && token == Sign(mac, ip, expires)
  }

  /**
   * Main result: a token verifies exactly when it is, character for character, the text signed for a nonempty address
   * without `~` and a later safe expiry; so neither leading zeros nor further segments pass.
   */
  lemma VerifiesExactly(mac: Mac, token: string, ip: string, now: int)
    requires IsMac(mac)
    ensures Verify(mac, token, now) == Some(ip) <==> Attests(mac, token, ip, now)
  {
    if ip != "" && '~' !in ip {
      forall expires: nat | now < expires <= MAX_SAFE_INTEGER && token == Sign(mac, ip, expires)
        ensures Verify(mac, token, now) == Some(ip)
      {
        SignedSegments(mac, ip, expires);
        DigitsRoundTrip(expires);
      }
    }
    if Verify(mac, token, now) == Some(ip) {
      assert ip in SplitOn('~', token);
      assert token == Sign(mac, ip, NumberOf(SplitOn('~', token)[1]));
    }
  }

  /** Main result: what was minted verifies exactly until it expires, for an address and an expiry that can be told apart. */
  lemma MintedVerifiesExactly(mac: Mac, ttlMs: int, ip: string, t: int, now: int)
    requires IsMac(mac)
    ensures Verify(mac, Mint(mac, ttlMs, ip, t), now) == Some(ip)
       <==> ip != "" && '~' !in ip && 0 <= t + ttlMs <= 9007199254740991 && now < t + ttlMs
  {
    var token := Mint(mac, ttlMs, ip, t);
    VerifiesExactly(mac, token, ip, now);
    forall other: nat | '~' !in ip && token == Sign(mac, ip, other)
      ensures other == t + ttlMs
    {
      SignedExpiryIsOne(mac, ip, t + ttlMs, other);
    }
    hide Sign;
    hide Verify;
  }

  /** A text signed for an address and a safe expiry verifies as that address until then, and as none after. */
  lemma SignedVerifiesUntil(mac: Mac, ip: string, expires: nat, now: int)
    requires IsMac(mac) && ip != "" && '~' !in ip && expires <= MAX_SAFE_INTEGER
    ensures Verify(mac, Sign(mac, ip, expires), now) == if now < expires then Some(ip) else None
  {
    SignedSegments(mac, ip, expires);
    DigitsRoundTrip(expires);
  }

  lemma SignedExpiryIsOne(mac: Mac, ip: string, expires: int, other: nat)
    requires IsMac(mac) && '~' !in ip && Sign(mac, ip, expires) == Sign(mac, ip, other)
    ensures expires == other
  {
    if expires < 0 {
      NegativeIsSigned(mac, ip, expires, other);
    } else {
      SignedSegments(mac, ip, other);
      SignedSegments(mac, ip, expires);
      DigitsRoundTrip(other);
      DigitsRoundTrip(expires);
    }
  }

  lemma NegativeIsSigned(mac: Mac, ip: string, expires: int, other: nat)
    requires expires < 0
    ensures Sign(mac, ip, expires) != Sign(mac, ip, other)
  {
    DigitsRoundTrip(other);
    assert Sign(mac, ip, expires)[|ip| + 1] == '-';
    assert Sign(mac, ip, other)[|ip| + 1] == Digits(other)[0];
    assert Digits(other)[0] in Digits(other);
  }

  /**
   * Main result: a mac vouches for address and expiry together: put behind another of either, it verifies exactly when the
   * mac of the two is the same, so for no mac that tells texts apart.
   */
  lemma MacVouchesForBoth(mac: Mac, ip: string, expires: nat, other: string, later: nat, now: int)
    requires IsMac(mac) && '~' !in ip && '~' !in other
    ensures var token := other + "~" + Digits(later) + "~" + mac(ip + "~" + Digits(expires));
            Verify(mac, token, now).Some? <==>
            && other != "" && now < later <= MAX_SAFE_INTEGER
            && mac(other + "~" + Digits(later)) == mac(ip + "~" + Digits(expires))
  {
    hide SplitOn;
    hide Digits;
    hide NumberOf;
    DigitsRoundTrip(later);
    ThreeSegments(other, Digits(later), mac(ip + "~" + Digits(expires)));
    SameSum(other + "~" + Digits(later), mac(ip + "~" + Digits(expires)), mac(other + "~" + Digits(later)));
  }

  lemma ThreeSegments(a: string, b: string, c: string)
    requires '~' !in a && '~' !in b && '~' !in c
    ensures SplitOn('~', a + "~" + b + "~" + c) == [a, b, c]
  {
    hide SplitOn;
    assert a + "~" + b + "~" + c == a + ['~'] + (b + ['~'] + c);
    FirstSegment('~', a, b + ['~'] + c);
    FirstSegment('~', b, c);
    FirstSegment('~', c, "");
  }

  lemma SameSum(body: string, sum: string, other: string)
    ensures body + "~" + sum == body + "~" + other <==> sum == other
  {
    assert (body + "~" + sum)[|body| + 1..] == sum && (body + "~" + other)[|body| + 1..] == other;
  }

  /** A token attests one address. */
  lemma AttestsOne(mac: Mac, token: string, ip: string, other: string, now: int, later: int)
    requires IsMac(mac) && Attests(mac, token, ip, now) && Attests(mac, token, other, later)
    ensures ip == other
  {
    VerifiesExactly(mac, token, ip, now);
    VerifiesExactly(mac, token, other, later);
  }

  /** An expired token stays expired. */
  lemma StaysExpired(mac: Mac, token: string, ip: string, now: int, later: int)
    requires IsMac(mac) && now <= later && Verify(mac, token, later) == Some(ip)
    ensures Verify(mac, token, now) == Some(ip)
  {
    VerifiesExactly(mac, token, ip, later);
    VerifiesExactly(mac, token, ip, now);
  }
}
