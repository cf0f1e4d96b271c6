/** The texts the call-log tool puts in place of codes: call type, number
    presentation and block reason, each with "UNKNOWN (n)" for a code it
    does not know, and the duration as `HH:MM:SS` of the day. */
module CallLabels {
  import opened Bytes
  import opened Text

  // ---------------------------------------------------------------------
  // "UNKNOWN (n)"
  // ---------------------------------------------------------------------

  const UnknownPrefix: string := "UNKNOWN ("

  /** The text for a code without a name: `"UNKNOWN ({})".format(n)`. */
  function UnknownLabel(n: nat): (r: string)
    ensures |r| > |UnknownPrefix| + 1 && r[..|UnknownPrefix|] == UnknownPrefix && r[|r| - 1] == ')'
    ensures r[|UnknownPrefix|..|r| - 1] == NatToString(n)
  {
    var r := UnknownPrefix + NatToString(n) + ")";
    assert r[..|UnknownPrefix|] == UnknownPrefix;
    assert r[|UnknownPrefix|..|r| - 1] == NatToString(n);
    r
  }

  /** The code an "UNKNOWN (n)" text stands for, if it is one. */
  function UnknownCode(shown: string): Option<nat>
  {
    if |shown| > |UnknownPrefix| + 1 && shown[..|UnknownPrefix|] == UnknownPrefix && shown[|shown| - 1] == ')'
       && IsDigits(shown[|UnknownPrefix|..|shown| - 1])
    then Some(DecimalValue(shown[|UnknownPrefix|..|shown| - 1]))
    else None
  }

  lemma UnknownCodeOfLabel(n: nat)
    ensures UnknownCode(UnknownLabel(n)) == Some(n)
  {
    NatToStringValue(n);
  }

  /** A text that does not begin like "UNKNOWN (" is not an unknown code's. */
  lemma NotUnknown(shown: string, n: nat)
    requires |shown| < |UnknownPrefix| || shown[..|UnknownPrefix|] != UnknownPrefix
    ensures shown != UnknownLabel(n)
  {
  }

  // ---------------------------------------------------------------------
  // Call type
  // ---------------------------------------------------------------------

  /** `GetCallTypeString`. */
  function CallTypeString(t: nat): string {
    if t == 1 then "Incoming"
    else if t == 2 then "Outgoing"
    else if t == 3 then "Missed"
    else if t == 4 then "Voicemail"
    else if t == 5 then "Rejected"
    else if t == 6 then "Blocked"
    else if t == 7 then "Answered_Externally"
    else UnknownLabel(t)
  }

  /** The code a call-type text names: the inverse of `CallTypeString`. */
  function CallTypeCode(shown: string): Option<nat> {
    if shown == "Incoming" then Some(1)
    else if shown == "Outgoing" then Some(2)
    else if shown == "Missed" then Some(3)
    else if shown == "Voicemail" then Some(4)
    else if shown == "Rejected" then Some(5)
    else if shown == "Blocked" then Some(6)
    else if shown == "Answered_Externally" then Some(7)
    else UnknownCode(shown)
  }

  /** Every call type has its own text, the seven known ones included. */
  lemma {:induction false} CallTypeRoundTrip(t: nat)
    ensures CallTypeCode(CallTypeString(t)) == Some(t)
  {
    if t < 1 || t > 7 {
      UnknownCallType(t);
    } else if t < 4 {
      assert t == 1 || t == 2 || t == 3;
    } else {
      assert t == 4 || t == 5 || t == 6 || t == 7;
    }
  }

  lemma UnknownCallType(t: nat)
    requires t < 1 || t > 7
    ensures CallTypeCode(UnknownLabel(t)) == Some(t)
  {
    var shown := UnknownLabel(t);
    assert shown[..|UnknownPrefix|] == UnknownPrefix;
    assert shown[0] == 'U' && shown[1] == 'N';
    UnknownCodeOfLabel(t);
  }

  lemma CallTypeInjective(a: nat, b: nat)
    requires CallTypeString(a) == CallTypeString(b)
    ensures a == b
  {
    CallTypeRoundTrip(a);
    CallTypeRoundTrip(b);
  }

  // ---------------------------------------------------------------------
  // Number presentation
  // ---------------------------------------------------------------------

  /** `GetPresentationString`. */
  function PresentationString(p: nat): string {
    if p == 1 then "Allowed"
    else if p == 2 then "Restricted"
    else if p == 3 then "Unknown"
    else if p == 4 then "Payphone"
    else UnknownLabel(p)
  }

  function PresentationCode(shown: string): Option<nat> {
    if shown == "Allowed" then Some(1)
    else if shown == "Restricted" then Some(2)
    else if shown == "Unknown" then Some(3)
    else if shown == "Payphone" then Some(4)
    else UnknownCode(shown)
  }

  /** Every presentation code has its own text; "Unknown" (code 3) is not
      the text of any unknown code. */
  lemma {:induction false} PresentationRoundTrip(p: nat)
    ensures PresentationCode(PresentationString(p)) == Some(p)
  {
    if p < 1 || p > 4 {
      var shown := UnknownLabel(p);
      assert shown[..|UnknownPrefix|] == UnknownPrefix;
      assert shown[0] == 'U' && shown[1] == 'N';
      UnknownCodeOfLabel(p);
    }
  }

  lemma PresentationInjective(a: nat, b: nat)
    requires PresentationString(a) == PresentationString(b)
    ensures a == b
  {
    PresentationRoundTrip(a);
    PresentationRoundTrip(b);
  }

  // ---------------------------------------------------------------------
  // Block reason
  // ---------------------------------------------------------------------

  /** `GetBlockReasonString`: code 0 (not blocked) is the empty text. */
  function BlockReasonString(reason: nat): string {
    if reason == 0 then ""
    else if reason == 1 then "Screening service"
    else if reason == 2 then "Direct to voicemail"
    else if reason == 3 then "Blocked number"
    else if reason == 4 then "Unknown number"
    else if reason == 5 then "Restricted number"
    else if reason == 6 then "Payphone"
    else if reason == 7 then "Not in contacts"
    else UnknownLabel(reason)
  }

  function BlockReasonCode(shown: string): Option<nat> {
    if shown == "" then Some(0)
    else if shown == "Screening service" then Some(1)
    else if shown == "Direct to voicemail" then Some(2)
    else if shown == "Blocked number" then Some(3)
    else if shown == "Unknown number" then Some(4)
    else if shown == "Restricted number" then Some(5)
    else if shown == "Payphone" then Some(6)
    else if shown == "Not in contacts" then Some(7)
    else UnknownCode(shown)
  }

  lemma {:induction false} BlockReasonRoundTrip(reason: nat)
    ensures BlockReasonCode(BlockReasonString(reason)) == Some(reason)
  {
    if reason > 7 {
      UnknownBlockReason(reason);
    } else if reason < 4 {
      assert reason == 0 || reason == 1 || reason == 2 || reason == 3;
    } else {
      assert reason == 4 || reason == 5 || reason == 6 || reason == 7;
    }
  }

  lemma UnknownBlockReason(reason: nat)
    requires reason > 7
    ensures BlockReasonCode(UnknownLabel(reason)) == Some(reason)
  {
    var shown := UnknownLabel(reason);
    assert shown[..|UnknownPrefix|] == UnknownPrefix;
    assert shown[0] == 'U' && shown[1] == 'N';
    UnknownCodeOfLabel(reason);
  }

  /** Only the not-blocked code has the empty text, so in a version 1007
      record an empty block reason means the call was not blocked. */
  lemma BlockReasonEmpty(reason: nat)
    ensures BlockReasonString(reason) == "" <==> reason == 0
  {
    BlockReasonRoundTrip(reason);
  }

  // ---------------------------------------------------------------------
  // Duration
  // ---------------------------------------------------------------------

  const SecondsPerDay: nat := 86400

  /** `GetDuration`: `time.strftime('%H:%M:%S', time.gmtime(d))`; the day
      count is dropped, so durations wrap at 24 hours. */
  function Duration(d: nat): (r: string)
    ensures |r| == 8 && r[2] == ':' && r[5] == ':'
    ensures IsDigits(r[..2]) && IsDigits(r[3..5]) && IsDigits(r[6..])
  {
    var r := TwoDigits((d / 3600) % 24) + ":" + TwoDigits((d / 60) % 60) + ":" + TwoDigits(d % 60);
    assert r[..2] == TwoDigits((d / 3600) % 24);
    assert r[3..5] == TwoDigits((d / 60) % 60);
    assert r[6..] == TwoDigits(d % 60);
    r
  }

  /** The seconds of the day a duration text shows. */
  function DurationSeconds(r: string): nat
    requires |r| == 8 && IsDigits(r[..2]) && IsDigits(r[3..5]) && IsDigits(r[6..])
  {
    DecimalValue(r[..2]) * 3600 + DecimalValue(r[3..5]) * 60 + DecimalValue(r[6..])
  }

  /** The text shows hours below 24, minutes and seconds below 60, and
      together they are the duration modulo one day. */
  lemma DurationMeaning(d: nat)
    ensures var r := Duration(d);
      && DecimalValue(r[..2]) < 24 && DecimalValue(r[3..5]) < 60 && DecimalValue(r[6..]) < 60
      && DurationSeconds(r) == d % SecondsPerDay
  {
    var r := Duration(d);
    assert r[..2] == TwoDigits((d / 3600) % 24);
    assert r[3..5] == TwoDigits((d / 60) % 60);
    assert r[6..] == TwoDigits(d % 60);
    DayArithmetic(d);
  }

  lemma DayArithmetic(d: nat)
    ensures ((d / 3600) % 24) * 3600 + ((d / 60) % 60) * 60 + d % 60 == d % SecondsPerDay
  {
    var s := d % 60;
    var m := d / 60;
    var mm := m % 60;
    var h := m / 60;
    var hh := h % 24;
    var days := h / 24;
    var inHour := mm * 60 + s;
    var inDay := hh * 3600 + inHour;
    assert inHour < 3600 by {
      BelowProduct(mm, 60, s, 60);
    }
    assert inDay < SecondsPerDay by {
      BelowProduct(hh, 24, inHour, 3600);
    }
    assert d == h * 3600 + inHour by {
      Regroup(d, m, s, h, mm, 60, 60);
    }
    assert d == days * SecondsPerDay + inDay by {
      Regroup(d, h, inHour, days, hh, 3600, 24);
    }
    DivModUnique(d, 3600, h, inHour);
    DivModUnique(d, SecondsPerDay, days, inDay);
  }

  /** A digit below `b` followed by a remainder below `c` stays below
      `b * c`. */
  lemma BelowProduct(x: nat, b: nat, y: nat, c: nat)
    requires x < b && y < c
    ensures x * c + y < b * c
  {
    assert x * c <= (b - 1) * c;
  }

  /** Two nested divisions with remainder, written as one. */
  lemma Regroup(d: nat, m: nat, s: nat, h: nat, mm: nat, c: nat, b: nat)
    requires d == m * c + s && m == h * b + mm
    ensures d == h * (b * c) + (mm * c + s)
  {
    assert m * c == h * b * c + mm * c;
  }

  /** Division with remainder has one result. */
  lemma DivModUnique(x: nat, b: nat, q: nat, r: nat)
    requires 0 < b && r < b && x == q * b + r
    ensures x / b == q && x % b == r
  {
    var q' := x / b;
    var r' := x % b;
    assert x == q' * b + r';
    if q' < q {
      MulMono(q' + 1, q, b);
    } else if q' > q {
      MulMono(q + 1, q', b);
    }
  }

  lemma MulMono(a: nat, c: nat, b: nat)
    requires a <= c
    ensures a * b <= c * b
  {
  }

  /** Durations a whole day apart look the same. */
  lemma DurationWraps(d: nat)
    ensures Duration(d + SecondsPerDay) == Duration(d)
  {
    DayShift(d);
  }

  lemma DayShift(d: nat)
    ensures ((d + SecondsPerDay) / 3600) % 24 == (d / 3600) % 24
    ensures ((d + SecondsPerDay) / 60) % 60 == (d / 60) % 60
    ensures (d + SecondsPerDay) % 60 == d % 60
  {
    assert (d + SecondsPerDay) / 3600 == d / 3600 + 24;
    assert (d + SecondsPerDay) / 60 == d / 60 + 1440;
  }
}
