/** The validity line shown under each intervenant's connection key: the number
    of days left before the key expires, rounded up, and either "Clé expirée" or
    "Expire dans N jour(s)". Instants are whole milliseconds since the epoch;
    a day is a fixed 24 hours. */
module KeyExpiry {
  import Text

  const MsPerDay := 1000 * 60 * 60 * 24

  /** `Math.ceil(x / d)` for a positive `d`. */
  function CeilDiv(x: int, d: int): (q: int)
    requires d > 0
    ensures (q - 1) * d < x <= q * d
  {
    -((-x) / d)
  }

  /** `expirationDate`: `createdAt` moved on by `validityDays` days. */
  function Expiration(createdAt: int, validityDays: int): int {
    createdAt + validityDays * MsPerDay
  }

  /** `getRemainingDays(createdAt, validityDays)`, `now` standing for `new Date()`. */
  function RemainingDays(createdAt: int, validityDays: int, now: int): int {
    CeilDiv(Expiration(createdAt, validityDays) - now, MsPerDay)
  }

  /** The days left are the least whole number of days that reaches the
      expiration from now. */
  lemma RemainingDaysSpec(createdAt: int, validityDays: int, now: int)
    ensures var r := RemainingDays(createdAt, validityDays, now);
      now + (r - 1) * MsPerDay < Expiration(createdAt, validityDays) <= now + r * MsPerDay
  {
  }

  /** Each day of validity added is one more day left. */
  lemma RemainingDaysShift(createdAt: int, validityDays: int, now: int, k: int)
    ensures RemainingDays(createdAt, validityDays + k, now) == RemainingDays(createdAt, validityDays, now) + k
  {
    var x := Expiration(createdAt, validityDays) - now;
    var q := RemainingDays(createdAt, validityDays, now);
    var q' := RemainingDays(createdAt, validityDays + k, now);
    assert Expiration(createdAt, validityDays + k) - now == x + k * MsPerDay;
    assert (q' - k - 1) * MsPerDay < x <= (q' - k) * MsPerDay;
    assert (q - 1) * MsPerDay < x <= q * MsPerDay;
  }

  /** What `KeyValidityStatus` shows: whether the key is shown as expired (in red)
      and its text. */
  datatype Status = Status(expired: bool, text: string)

  /** `KeyValidityStatus({createdAt, validityDays})` at `now`. */
  function KeyValidityStatus(createdAt: int, validityDays: int, now: int): Status {
    var remainingDays := RemainingDays(createdAt, validityDays, now);
    if remainingDays <= 0 then Status(true, "Clé expirée")
    else Status(false, "Expire dans " + Text.NatToString(remainingDays) + " jour" + (if remainingDays > 1 then "s" else ""))
  }

  /** A key is shown as expired exactly when its expiration is not after now. */
  lemma ExpiredSpec(createdAt: int, validityDays: int, now: int)
    ensures KeyValidityStatus(createdAt, validityDays, now).expired <==> Expiration(createdAt, validityDays) <= now
    ensures KeyValidityStatus(createdAt, validityDays, now).expired <==> RemainingDays(createdAt, validityDays, now) <= 0
  {
    RemainingDaysSpec(createdAt, validityDays, now);
  }

  /** A key still valid shows its days left, and the plural only for more than one
      day: a key expiring within the next 24 hours reads "1 jour". */
  lemma LabelSpec(createdAt: int, validityDays: int, now: int)
    requires !KeyValidityStatus(createdAt, validityDays, now).expired
    ensures var r := RemainingDays(createdAt, validityDays, now);
      var text := KeyValidityStatus(createdAt, validityDays, now).text;
      && r >= 1
      && text[..12] == "Expire dans "
      && (r > 1 <==> text[|text| - 1] == 's')
      && Text.DigitsValue(text[12..12 + |Text.NatToString(r)|]) == r
  {
    var r := RemainingDays(createdAt, validityDays, now);
    var digits := Text.NatToString(r);
    var text := KeyValidityStatus(createdAt, validityDays, now).text;
    var suffix := " jour" + (if r > 1 then "s" else "");
    assert text == "Expire dans " + digits + suffix;
    assert text[12..12 + |digits|] == digits;
  }
}
