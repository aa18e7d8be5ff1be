/** The progress records kept per download job: dictionaries from a fixed set
    of field names to text or numbers. */
module Records {
  import opened Base

  /** The keys a progress record can hold. */
  datatype Field = Status | Percent | Speed | Eta | Filesize | Filename | Message | StartTime | Filepath

  /** A field value: a piece of text (possibly a rendered number, see
      `Label`) or a number. */
  datatype Value = Text(shown: Label) | Number(x: real)

  type Record = map<Field, Value>

  function Str(s: string): Value {
    Text(Literal(s))
  }

  /** `r` holds a number under `f`, if anything. */
  predicate NumberAt(r: Record, f: Field) {
    f in r ==> r[f].Number?
  }

  /** `r` holds some text under `f`, if anything. */
  predicate TextAt(r: Record, f: Field) {
    f in r ==> r[f].Text?
  }

  /** `r` holds a plain string under `f`, if anything. */
  predicate PlainAt(r: Record, f: Field) {
    f in r ==> r[f].Text? && r[f].shown.Literal?
  }

  /** Every value has the shape its field is written with: numbers for the
      percentage and the start time, plain strings for the status, message,
      file name and path, and text for the rest. */
  predicate WellTyped(r: Record) {
    && NumberAt(r, Percent) && NumberAt(r, StartTime)
    && PlainAt(r, Status) && PlainAt(r, Message) && PlainAt(r, Filename) && PlainAt(r, Filepath)
    && TextAt(r, Speed) && TextAt(r, Eta) && TextAt(r, Filesize)
  }

  /** `record.get(field)` compared with a plain string. */
  predicate HasText(r: Record, f: Field, s: string) {
    f in r && r[f] == Str(s)
  }
}
