/** The store's log: every call of `log` appends one line, stamped with the
    clock reading of that moment, to the shared log file. */
module Logger {
  import opened Json

  /** One call of `log`: its message and the `Date.now()` reading it carries. */
  datatype Entry = Entry(message: string, stamp: nat)

  /** The text one call appends to the log file: a newline, the message, a
      space, the time in milliseconds, a newline. */
  function Line(e: Entry): string {
    "\n" + e.message + " " + Decimal(e.stamp) + "\n"
  }

  /** The text of the log file once the given entries have been appended. */
  function LogText(entries: seq<Entry>): string
    decreases |entries|
  {
    if entries == [] then "" else Line(entries[0]) + LogText(entries[1..])
  }

  /** The log file only grows: the text of a log extended by more entries is
      the old text followed by the new lines. */
  lemma {:induction false} LogTextAppend(a: seq<Entry>, b: seq<Entry>)
    ensures LogText(a + b) == LogText(a) + LogText(b)
    decreases |a|
  {
    if a == [] {
      assert a + b == b;
    } else {
      assert (a + b)[0] == a[0] && (a + b)[1..] == a[1..] + b;
      LogTextAppend(a[1..], b);
    }
  }

  /** A line carries its message after the leading newline, and its stamp
      reads back from the digits before the closing newline. */
  lemma LineParts(e: Entry)
    ensures var line, digits := Line(e), Decimal(e.stamp);
      && line[1..1 + |e.message|] == e.message
      && line[|line| - 1 - |digits|..|line| - 1] == digits
      && DecimalValue(digits) == e.stamp
  {
    DecimalRoundTrip(e.stamp);
  }
}
