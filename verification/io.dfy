/** The two ends of every encode/decode loop, with the foreign library behind
    them replaced by data: a destination writer that fails after a fixed number
    of writes, and a decoder given as the documents it yields and the error it
    reports after them. */
module IO {
  import opened Wrappers

  /** A destination. The next `budget` write calls succeed and append their
      text; every later one fails with `WriteFailed` and writes nothing.
      `closed` records that the owning stage released the writer. */
  datatype Writer = Writer(text: string, budget: nat, closed: bool)

  function Write(w: Writer, s: string): (Outcome<Error>, Writer)
  {
    if w.budget > 0 then (Pass, w.(text := w.text + s, budget := w.budget - 1))
    else (Fail(WriteFailed), w)
  }

  function Close(w: Writer): Writer
  {
    w.(closed := true)
  }

  /** A decoder: successive `Decode` calls yield `docs` in order, and the call
      after the last one reports `end` (`EOF` for a clean end of input). */
  datatype Source<T> = Source(docs: seq<T>, end: Error)
}
