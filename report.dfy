/** The error report of a translation unit, to which the checkers append their
    diagnostics. Source locations are not part of this model. */
module Reports {
  import opened Util

  /** A piece of a message: literal text, or a number printed by `std::to_string`. */
  datatype Piece = Text(text: string) | Number(value: int)

  /** A diagnostic: its primary message and the additional messages attached to it. */
  datatype Diagnostic = Diagnostic(message: seq<Piece>, notes: seq<seq<Piece>>)

  /** The text of a message: its pieces one after the other. */
  function Render(m: seq<Piece>): string
  {
    if |m| == 0 then ""
    else (match m[0] case Text(t) => t case Number(n) => IntToString(n)) + Render(m[1..])
  }

  class ErrorReport {
    var diagnostics: seq<Diagnostic>

    constructor ()
      ensures diagnostics == []
    {
      diagnostics := [];
    }

    /** `addDiagnostic`: the diagnostic goes after the ones reported so far. */
    method AddDiagnostic(d: Diagnostic)
      modifies this
      ensures diagnostics == old(diagnostics) + [d]
    {
      diagnostics := diagnostics + [d];
    }

    /** `addError`: an error with a message and no further notes. */
    method AddError(message: string)
      modifies this
      ensures diagnostics == old(diagnostics) + [Diagnostic([Text(message)], [])]
    {
      AddDiagnostic(Diagnostic([Text(message)], []));
    }
  }
}
