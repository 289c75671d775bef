/**
 * The indenting status logger both engines report through. A logger keeps an indent
 * counter that a `with log:` block raises by four on entry and lowers by four on exit;
 * every status line it prints is padded by the indent current at the time. The lines
 * printed so far are kept on a terminal that several loggers may share.
 *
 * Colours and the centring of the status word are presentation and are not modelled:
 * a printed line is its padding, its status word and its message.
 */
module Logging {

  /** The status words the two engines print. */
  datatype Label = Skip | Backup | Update | Create | UpToDate | Remove | Pass | Fail | Warn | Topic

  /** How far one `with` block indents. */
  const IndentSize: int := 4

  /** A printed status line: leading blanks, status word, message. */
  datatype Line<M> = Line(pad: nat, status: Label, message: M)

  /** The number of blanks `" " * indent` gives: none for a negative indent. */
  function Pad(indent: int): (n: nat)
    ensures indent >= 0 ==> n == indent
    ensures indent < 0 ==> n == 0
  {
    if indent < 0 then 0 else indent
  }

  /** Standard output: everything printed so far, in order. */
  class Terminal<M> {
    var lines: seq<Line<M>>

    constructor()
      ensures lines == []
    {
      lines := [];
    }
  }

  class Logger<M> {
    var indent: int
    const term: Terminal<M>

    constructor(term: Terminal<M>)
      ensures indent == 0 && this.term == term
    {
      indent := 0;
      this.term := term;
    }

    /** `__enter__`: one level deeper. */
    method Enter()
      modifies this
      ensures indent == old(indent) + IndentSize
    {
      indent := indent + IndentSize;
    }

    /** `__exit__`: one level back; it returns `True`, so the block's exception is swallowed. */
    method Exit()
      modifies this
      ensures indent == old(indent) - IndentSize
    {
      indent := indent - IndentSize;
    }

    /** `spaced_status`: one line with the status word, padded by the current indent. */
    method SpacedStatus(status: Label, message: M)
      modifies term
      ensures term.lines == old(term.lines) + [Line(Pad(indent), status, message)]
    {
      term.lines := term.lines + [Line(Pad(indent), status, message)];
    }
  }
}
