/**
  `separator`: a one-bit state machine that writes nothing the first time it is
  called and its separator text on every later call; and the loop that uses it
  to write a generic type's argument list.
 */
module Separators {
  import opened Common

  /** The text output the tool writes to (`writer`); only the text written so far matters here. */
  class Writer {
    var text: string

    constructor ()
      ensures text == ""
    {
      text := "";
    }

    /** `w.write(s)` */
    method Write(s: string)
      modifies this
      ensures text == old(text) + s
    {
      text := text + s;
    }
  }

  /** `s` written `n` times in a row. */
  function Repeat(s: string, n: nat): string
  {
    if n == 0 then "" else Repeat(s, n - 1) + s
  }

  /** How many separators `n` calls write, starting from the state `first`:
      for a fresh separator, max(n - 1, 0). */
  function SeparatorsWritten(first: bool, n: nat): nat
  {
    if n == 0 then 0 else if first then n - 1 else n
  }

  class Separator {
    const w: Writer
    const separator: string
    var first: bool

    /** `separator s{ w }`: separator text ", ", not yet called. */
    constructor (w: Writer)
      ensures this.w == w && separator == ", " && first
    {
      this.w := w;
      separator := ", ";
      first := true;
    }

    /** `operator()`: nothing on the first call, the separator text on every later one. */
    method Call()
      modifies this, w
      ensures !first
      ensures w.text == old(w.text) + (if old(first) then "" else separator)
    {
      if first {
        first := false;
      } else {
        w.Write(separator);
      }
    }

    /** `n` calls in a row. */
    method CallTimes(n: nat)
      modifies this, w
      ensures first == (old(first) && n == 0)
      ensures w.text == old(w.text) + Repeat(separator, SeparatorsWritten(old(first), n))
    {
      var i := 0;
      while i < n
        invariant i <= n
        invariant first == (old(first) && i == 0)
        invariant w.text == old(w.text) + Repeat(separator, SeparatorsWritten(old(first), i))
      {
        Call();
        i := i + 1;
      }
    }
  }

  /** The list part of `type_name_handler::handle(GenericTypeInstSig)`: "<", then each
      argument's name preceded by a call of a fresh separator, then ">". */
  method WriteGenericArgs(w: Writer, args: seq<string>)
    modifies w
    ensures w.text == old(w.text) + "<" + JoinWith(args, ", ") + ">"
  {
    w.Write("<");
    var s := new Separator(w);
    var i := 0;
    while i < |args|
      invariant i <= |args|
      invariant s.w == w && s.separator == ", "
      invariant s.first == (i == 0)
      invariant w.text == old(w.text) + "<" + JoinWith(args[..i], ", ")
    {
      s.Call();
      w.Write(args[i]);
      assert args[..i + 1][..i] == args[..i];
      i := i + 1;
    }
    assert args[..i] == args;
    w.Write(">");
  }
}
