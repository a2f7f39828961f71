/** The `TimeInput` widget: four number fields (hours, minutes, seconds, hundredths) that
    start as the clock decomposition of the incoming value, are edited one at a time with no
    clamping, and re-emit the recombined total after every edit. Totals are counted in
    hundredths of a second, so `h * 3600 + m * 60 + s + cc / 100` is exact. */
module TimeEntry {
  import opened ResultCodec

  datatype Field = HourField | MinuteField | SecondField | HundredthField

  /** What one unit of the field is worth, in hundredths of a second. */
  function Weight(f: Field): nat
  {
    match f
    case HourField => 360000
    case MinuteField => 6000
    case SecondField => 100
    case HundredthField => 1
  }

  function Get(p: Clock, f: Field): int
  {
    match f
    case HourField => p.hours
    case MinuteField => p.minutes
    case SecondField => p.seconds
    case HundredthField => p.hundredths
  }

  /** The clock with field `f` replaced by `x`, whatever its range. */
  function Edit(p: Clock, f: Field, x: int): (q: Clock)
    ensures Get(q, f) == x
    ensures forall g :: g != f ==> Get(q, g) == Get(p, g)
  {
    match f
    case HourField => p.(hours := x)
    case MinuteField => p.(minutes := x)
    case SecondField => p.(seconds := x)
    case HundredthField => p.(hundredths := x)
  }

  /** The total is the weighted sum of the fields. */
  lemma RecombineWeighted(p: Clock)
    ensures Recombine(p) == Get(p, HourField) * Weight(HourField) + Get(p, MinuteField) * Weight(MinuteField)
                          + Get(p, SecondField) * Weight(SecondField) + Get(p, HundredthField) * Weight(HundredthField)
  {
  }

  /** Editing one field moves the total by the change in that field times its weight. */
  lemma EditShift(p: Clock, f: Field, x: int)
    ensures Recombine(Edit(p, f, x)) == Recombine(p) + (x - Get(p, f)) * Weight(f)
  {
    RecombineWeighted(p);
    RecombineWeighted(Edit(p, f, x));
  }

  /** Minutes set to 75, past the input's hint of 59, is kept as 75 and counts 75 minutes. */
  lemma NoClamping(p: Clock)
    ensures Get(Edit(p, MinuteField, 75), MinuteField) == 75
    ensures Recombine(Edit(p, MinuteField, 75)) == Recombine(p) + (75 - p.minutes) * 6000
  {
    EditShift(p, MinuteField, 75);
  }

  class TimeInput {
    var hours: int
    var minutes: int
    var seconds: int
    var hundredths: int

    function Fields(): Clock
      reads this
    {
      Clock(hours, minutes, seconds, hundredths)
    }

    /** The value the widget emits, in hundredths of a second. */
    function Total(): int
      reads this
    {
      Recombine(Fields())
    }

    /** The initial fields are the clock decomposition that the results table displays, and
        they add back up to the value's whole hundredths. */
    constructor (value: Magnitude)
      ensures Fields() == Decompose(value)
      ensures Total() == Hundredths(value)
    {
      DecomposeSplit(value);
      var p := Decompose(value);
      hours, minutes, seconds, hundredths := p.hours, p.minutes, p.seconds, p.hundredths;
    }

    /** Stores `x` in field `f` and returns the total the widget then emits. */
    method Set(f: Field, x: int) returns (emitted: int)
      modifies this
      ensures Fields() == Edit(old(Fields()), f, x)
      ensures emitted == Total() == old(Total()) + (x - Get(old(Fields()), f)) * Weight(f)
    {
      EditShift(Fields(), f, x);
      var q := Edit(Fields(), f, x);
      hours, minutes, seconds, hundredths := q.hours, q.minutes, q.seconds, q.hundredths;
      emitted := Total();
    }

    method SetHours(x: int) returns (emitted: int)
      modifies this
      ensures hours == x && minutes == old(minutes) && seconds == old(seconds) && hundredths == old(hundredths)
      ensures emitted == Total() == old(Total()) + (x - old(hours)) * 360000
    {
      emitted := Set(HourField, x);
    }

    method SetMinutes(x: int) returns (emitted: int)
      modifies this
      ensures minutes == x && hours == old(hours) && seconds == old(seconds) && hundredths == old(hundredths)
      ensures emitted == Total() == old(Total()) + (x - old(minutes)) * 6000
    {
      emitted := Set(MinuteField, x);
    }

    method SetSeconds(x: int) returns (emitted: int)
      modifies this
      ensures seconds == x && hours == old(hours) && minutes == old(minutes) && hundredths == old(hundredths)
      ensures emitted == Total() == old(Total()) + (x - old(seconds)) * 100
    {
      emitted := Set(SecondField, x);
    }

    method SetHundredths(x: int) returns (emitted: int)
      modifies this
      ensures hundredths == x && hours == old(hours) && minutes == old(minutes) && seconds == old(seconds)
      ensures emitted == Total() == old(Total()) + (x - old(hundredths))
    {
      emitted := Set(HundredthField, x);
    }
  }
}
