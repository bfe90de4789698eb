/**
 The login-attempt counter of the `/api/login` handler: how the handler
 reads it out of the raw `Cookie` request header, what JavaScript makes of
 the text it read, the gate at five attempts, and the value written back
 after a failed login.
 */
module LoginCounter {
  import opened Wrappers
  import opened Strings

  /** The header is cut into segments at every `"; "`. */
  const CookieSeparator := "; "
  /** A segment counts when it contains this text anywhere, not only at its start. */
  const LoginKey := "login="
  /** Logins are refused once the counter is at least this. */
  const MaxLoginAttempts: nat := 5

  /**
   What the handler's `loginCount` variable holds after the scan: still the
   number 0 it started as, or the text taken from a cookie segment.
   */
  datatype Scanned = Unset | Raw(text: string)

  /**
   The counter as a JavaScript number: `loginCount >= 5` and
   `loginCount++` convert a text with `Number(..)`, which gives NaN for a
   text that is not a number.
   */
  datatype Count = Attempts(n: nat) | NaN

  /** An occurrence of `"="` is a single `=` character. */
  lemma EqualsIsSingleChar(s: string, k: nat)
    ensures OccursAt(s, "=", k) <==> k < |s| && s[k] == '='
  {
  }

  /** A segment that contains `login=` contains an `=`, so splitting it at `=` gives at least two fields. */
  lemma LoginKeyHasEquals(segment: string)
    requires Contains(segment, LoginKey)
    ensures Contains(segment, "=")
  {
    ContainsIffOccurs(segment, LoginKey);
    var k: nat :| OccursAt(segment, LoginKey, k);
    assert segment[k + 5] == LoginKey[5];
    EqualsIsSingleChar(segment, k + 5);
    ContainsIffOccurs(segment, "=");
  }

  /**
   `segment.split('=')[1]`: the text between the first `=` of the segment
   and the next `=` (or the end of the segment).
   */
  function LoginValue(segment: string): (v: string)
    requires Contains(segment, LoginKey)
    ensures !Contains(v, "=")
    ensures var k := IndexFrom(segment, "=", 0);
      && 0 <= k
      && k + 1 + |v| <= |segment|
      && segment[k + 1..k + 1 + |v|] == v
      && (k + 1 + |v| == |segment| || segment[k + 1 + |v|] == '=')
  {
    LoginKeyHasEquals(segment);
    SplitWithSeparator(segment, "=");
    SplitPieces(segment, "=");
    var k := IndexFrom(segment, "=", 0);
    var next := IndexFrom(segment, "=", k + 1);
    EqualsIsSingleChar(segment, if next == -1 then 0 else next);
    assert Split(segment, "=")[1] in Split(segment, "=");
    Split(segment, "=")[1]
  }

  /**
   The `for` loop over the segments: the value of the last segment that
   contains `login=`, or `Unset` when none does.
   */
  function LastLoginValue(segments: seq<string>): (r: Scanned)
    ensures r.Raw? ==> !Contains(r.text, "=")
  {
    if |segments| == 0 then Unset
    else
      var last := segments[|segments| - 1];
      if Contains(last, LoginKey) then Raw(LoginValue(last))
      else LastLoginValue(segments[..|segments| - 1])
  }

  /** The scan finds nothing exactly when no segment contains `login=`. */
  lemma {:induction false} LastLoginValueUnset(segments: seq<string>)
    ensures LastLoginValue(segments) == Unset <==>
      forall i :: 0 <= i < |segments| ==> !Contains(segments[i], LoginKey)
  {
    if |segments| > 0 {
      var n := |segments| - 1;
      var init := segments[..n];
      if !Contains(segments[n], LoginKey) {
        LastLoginValueUnset(init);
        assert forall i :: 0 <= i < n ==> segments[i] == init[i];
      }
    }
  }

  /** The segment at `i` contains `login=` and no later segment does. */
  predicate IsLastLoginSegment(segments: seq<string>, i: int)
  {
    && 0 <= i < |segments|
    && Contains(segments[i], LoginKey)
    && forall j :: i < j < |segments| ==> !Contains(segments[j], LoginKey)
  }

  /** The scan yields the value of the last segment containing `login=`. */
  lemma {:induction false} LastLoginValueSpec(segments: seq<string>, i: int)
    requires IsLastLoginSegment(segments, i)
    ensures LastLoginValue(segments) == Raw(LoginValue(segments[i]))
  {
    var n := |segments| - 1;
    if i < n {
      var init := segments[..n];
      assert !Contains(segments[n], LoginKey);
      assert init[i] == segments[i];
      assert forall j :: i < j < n ==> init[j] == segments[j];
      LastLoginValueSpec(init, i);
    }
  }

  /** The value of `loginCount` after the scan of the `Cookie` header (`None` when the request has none). */
  function ScanHeader(header: Option<string>): (r: Scanned)
    ensures header.None? || header == Some("") ==> r == Unset
    ensures header.Some? && header.value != "" ==>
      var segments := Split(header.value, CookieSeparator);
      (r == Unset <==> forall i :: 0 <= i < |segments| ==> !Contains(segments[i], LoginKey))
    ensures r.Raw? ==> !Contains(r.text, "=")
  {
    if header.None? || header.value == "" then Unset
    else
      var segments := Split(header.value, CookieSeparator);
      LastLoginValueUnset(segments);
      LastLoginValue(segments)
  }

  /** The handler's own loop, forwards over the segments, overwriting the value at every match. */
  method ReadLoginCount(header: Option<string>) returns (scanned: Scanned)
    ensures scanned == ScanHeader(header)
  {
    scanned := Unset;
    if header.Some? && header.value != "" {
      var segments := Split(header.value, CookieSeparator);
      var i := 0;
      while i < |segments|
        invariant 0 <= i <= |segments|
        invariant scanned == LastLoginValue(segments[..i])
      {
        assert segments[..i + 1][..i] == segments[..i];
        if Contains(segments[i], LoginKey) {
          scanned := Raw(LoginValue(segments[i]));
        }
        i := i + 1;
      }
      assert segments[..|segments|] == segments;
    }
  }

  /** `Number(text)` as far as this model follows it: a string of decimal digits, the empty string included, is that number; any other text is NaN. */
  function ToCount(s: Scanned): Count
  {
    match s
    case Unset => Attempts(0)
    case Raw(text) => if AllDigits(text) then Attempts(DigitsValue(text)) else NaN
  }

  /** The counter the login handler works with for a given `Cookie` header. */
  function AttemptsIn(header: Option<string>): Count
  {
    ToCount(ScanHeader(header))
  }

  /** `loginCount >= 5`; a comparison with NaN is false. */
  predicate Throttled(c: Count)
  {
    c.Attempts? && c.n >= MaxLoginAttempts
  }

  /** `loginCount++` after a failed login. */
  function Bump(c: Count): Count
  {
    match c
    case Attempts(n) => Attempts(n + 1)
    case NaN => NaN
  }

  /**
   The cookie value the number becomes when it is written back
   (`String(..)`): a text with no `;` and no `=`, so the scan reads it back
   whole, and one that `Number(..)` turns into the same count again.
   */
  function Render(c: Count): (r: string)
    ensures |r| >= 1
    ensures forall i :: 0 <= i < |r| ==> r[i] != ';' && r[i] != '='
    ensures ToCount(Raw(r)) == c
  {
    match c
    case Attempts(n) =>
      ShowNatRoundTrip(n);
      ShowNat(n)
    case NaN =>
      assert !IsDigit("NaN"[0]);
      "NaN"
  }

  /** `Number(..)` ignores leading zeros: `"05"` counts as 5 and `"0"` as 0, as does the empty text. */
  lemma {:induction false} LeadingZeroIgnored(t: string)
    ensures ToCount(Raw("0" + t)) == ToCount(Raw(t))
    // A fixed fact, independent of `t`: `Number("")` is 0.
    ensures ToCount(Raw("")) == Attempts(0)
    decreases |t|
  {
    var z := "0" + t;
    assert z[0] == '0';
    assert forall i :: 0 <= i < |t| ==> z[i + 1] == t[i];
    if AllDigits(t) {
      assert AllDigits(z) by {
        assert forall i :: 1 <= i < |z| ==> z[i] == t[i - 1];
      }
      if |t| > 0 {
        var init := t[..|t| - 1];
        assert z[..|z| - 1] == "0" + init;
        assert AllDigits(init) by {
          assert forall i :: 0 <= i < |init| ==> init[i] == t[i];
        }
        LeadingZeroIgnored(init);
        assert z[|z| - 1] == t[|t| - 1];
      } else {
        assert z[..0] == "";
      }
    } else {
      var i :| 0 <= i < |t| && !IsDigit(t[i]);
      assert !IsDigit(z[i + 1]);
    }
  }

  /**
   The gate and the increment: NaN never trips the gate, a count that has
   tripped it stays tripped after `++`, and the failure that first trips it
   is the one counted from four to five.
   */
  lemma GateAndBump(c: Count)
    // The two cases of `Throttled` and `Bump`, as their definitions give them.
    ensures !Throttled(NaN) && Bump(NaN) == NaN
    ensures c.Attempts? ==> Bump(c) == Attempts(c.n + 1)
    // What the definitions imply about the gate over successive failures.
    ensures Throttled(c) ==> Throttled(Bump(c))
    ensures !Throttled(c) && Throttled(Bump(c)) <==> c == Attempts(MaxLoginAttempts - 1)
  {
  }

  /** With a `Cookie` header whose last segment containing `login=` is segment `i`, the counter is that segment's value as a number. */
  lemma AttemptsInLastSegment(header: string, i: int)
    requires header != "" && IsLastLoginSegment(Split(header, CookieSeparator), i)
    ensures var v := LoginValue(Split(header, CookieSeparator)[i]);
      AttemptsIn(Some(header)) == if AllDigits(v) then Attempts(DigitsValue(v)) else NaN
  {
    LastLoginValueSpec(Split(header, CookieSeparator), i);
  }

  /** Without a `Cookie` header, or with an empty one, the counter is 0. */
  lemma NoCookieIsZero()
    ensures AttemptsIn(None) == Attempts(0)
    ensures AttemptsIn(Some("")) == Attempts(0)
  {
  }

  /** A header without any segment containing `login=` leaves the counter at 0. */
  lemma NoLoginSegmentIsZero(header: string)
    requires forall p :: p in Split(header, CookieSeparator) ==> !Contains(p, LoginKey)
    ensures AttemptsIn(Some(header)) == Attempts(0)
  {
    var segments := Split(header, CookieSeparator);
    LastLoginValueUnset(segments);
    assert forall i :: 0 <= i < |segments| ==> segments[i] in segments;
  }

  /** A text without `;` cannot contain the cookie separator `"; "`. */
  lemma NoSemicolonNoSeparator(s: string)
    requires forall i :: 0 <= i < |s| ==> s[i] != ';'
    ensures !Contains(s, CookieSeparator)
  {
    forall k: nat
      ensures !OccursAt(s, CookieSeparator, k)
    {
      if k + 2 <= |s| {
        assert s[k..k + 2][0] == s[k];
      }
    }
    ContainsIffOccurs(s, CookieSeparator);
  }

  /** The first `=` of `login=<r>` is the one of the key. */
  lemma LoginPairFirstEquals(r: string)
    ensures IndexFrom(LoginKey + r, "=", 0) == 5
  {
    var h := LoginKey + r;
    var k := IndexFrom(h, "=", 0);
    EqualsIsSingleChar(h, 5);
    EqualsIsSingleChar(h, k);
    assert h[..6] == LoginKey;
  }

  /** The segment `login=<r>`, for a text `r` without `=`, yields `r`. */
  lemma LoginPairValue(r: string)
    requires forall i :: 0 <= i < |r| ==> r[i] != '='
    ensures Contains(LoginKey + r, LoginKey)
    ensures LoginValue(LoginKey + r) == r
  {
    var h := LoginKey + r;
    assert h[..|LoginKey|] == LoginKey;
    LoginPairFirstEquals(r);
    var v := LoginValue(h);
    assert h[6..6 + |v|] == v;
    assert forall j :: 6 <= j < |h| ==> h[j] == r[j - 6];
    assert 6 + |v| == |h|;
    assert h[6..] == r;
  }

  /** The header `login=<r>`, for a text `r` without `;` or `=`, scans to `r`. */
  lemma LoginHeaderScan(r: string)
    requires forall i :: 0 <= i < |r| ==> r[i] != ';' && r[i] != '='
    ensures ScanHeader(Some(LoginKey + r)) == Raw(r)
  {
    var h := LoginKey + r;
    NoSemicolonNoSeparator(h);
    SplitWithoutSeparator(h, CookieSeparator);
    LoginPairValue(r);
    assert LastLoginValue([h]) == Raw(r);
  }

  /**
   The counter written back after a failed login is read again as the same
   counter when the browser returns it as `login=<value>`.
   */
  lemma RenderRoundTrip(c: Count)
    ensures AttemptsIn(Some(LoginKey + Render(c))) == c
  {
    var r := Render(c);
    if c.Attempts? {
      assert AllDigits(r);
      LoginHeaderScan(r);
      ShowNatRoundTrip(c.n);
    } else {
      LoginHeaderScan(r);
      assert !IsDigit(r[0]);
    }
  }
}
