/**
 * `parseIbTime`: an Interactive Brokers timestamp `"2025-08-18, 09:34:59"` is
 * split on commas, both halves are trimmed and glued with `T` into an ISO
 * string, which `new Date` parses. Both versions of the application carry the
 * same function.
 *
 * `new Date(iso)` depends on the local time zone and is a parameter here
 * (`parseIso`); so is the wall clock (`now`), which the function falls back
 * to when the value has no comma: destructuring then leaves the time part
 * `undefined`, `.trim()` throws, and the `catch` returns the current date.
 */
module IbTime {
  import opened Js

  function ParseIbTime(v: Cell, now: int, parseIso: string -> Instant): (t: Instant)
    ensures ',' !in Text(v) ==> t == At(now)
  {
    var parts := Fields(Text(v));
    if |parts| < 2 then At(now)
    else parseIso(Trim(parts[0]) + "T" + Trim(parts[1]))
  }

  /** The first field of a comma-free `t` followed by comma-led text is `t`. */
  lemma FirstFieldOf(t: string, rest: string)
    requires ',' !in t
    requires rest == "" || rest[0] == ','
    ensures Fields(t + rest)[0] == t
  {
    if rest == "" {
      assert t + rest == t;
    } else {
      assert t + rest == t + "," + rest[1..];
      FieldsCons(t, rest[1..]);
    }
  }

  /**
   * A value made of a comma-free date, a comma, a comma-free time and
   * possibly further comma-led text parses as the trimmed date and time
   * joined by `T`; what follows the second field is ignored.
   */
  lemma ParseDateAndTime(d: string, t: string, rest: string, now: int, parseIso: string -> Instant)
    requires ',' !in d && ',' !in t
    requires rest == "" || rest[0] == ','
    ensures ParseIbTime(Some(d + "," + t + rest), now, parseIso) == parseIso(Trim(d) + "T" + Trim(t))
  {
    DateTimeFields(d, t, rest);
  }

  /** The fields of such a value start with the date and the time. */
  lemma DateTimeFields(d: string, t: string, rest: string)
    requires ',' !in d && ',' !in t
    requires rest == "" || rest[0] == ','
    ensures |Fields(d + "," + t + rest)| >= 2
    ensures Fields(d + "," + t + rest)[0] == d && Fields(d + "," + t + rest)[1] == t
  {
    var s := d + "," + (t + rest);
    assert d + "," + t + rest == s;
    FieldsCons(d, t + rest);
    FirstFieldOf(t, rest);
  }

  /** Without a comma the result is the caller's clock, whatever the text. */
  lemma NoCommaIsNow(v: Cell, now: int, parseIso: string -> Instant)
    requires v.None? || ',' !in v.value
    ensures ParseIbTime(v, now, parseIso) == At(now)
  {
    assert ',' !in "undefined";
  }
}
