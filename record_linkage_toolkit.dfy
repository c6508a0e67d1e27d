/**
 * `preProcess` of src/PythonRecordLinkageToolkit.py, the record-linkage
 * script's own copy of the string normaliser. It is written out here step by
 * step from the same building blocks and shown to agree with
 * `Tools.PreProcessString` on every input, so every property proved of that
 * one carries over.
 */
module RecordLinkageToolkit {
  import opened Wrappers
  import opened Tools

  /** `preProcess(column)`, step by step from the same building blocks as `Tools`. */
  function PreProcess(column: Cell): (r: Option<string>)
    requires column.Text? ==> IsAscii(column.s)
    ensures r == PreProcessString(column)
    ensures !column.Text? ==> r == None
    ensures r.Some? ==> r.value != []
    ensures r.Some? ==> forall x :: x in r.value ==> x !in Rewritten && !IsUpper(x)
    ensures r.Some? ==> NoDoubleSpace(r.value)
    ensures r.Some? ==> !IsSpace(r.value[0]) && !IsSpace(r.value[|r.value| - 1])
  {
    var text := if column.Text? then column.s else "";
    var substituted := Rewrite(text);
    var collapsed := CollapseSpaces(substituted);
    var stripped := Strip(Strip(Strip(collapsed, AnyWhitespace), Chars({'"'})), Chars({'\''}));
    var cleaned := Strip(Lower(stripped), AnyWhitespace);
    if cleaned == [] then None else Some(cleaned)
  }

  /** Text made only of whitespace and rewritten characters gives `None` here too. */
  lemma {:induction false} BlankColumnIsNone(s: string)
    requires forall x :: x in s ==> IsSpace(x) || x in Rewritten
    ensures IsAscii(s) && PreProcess(Text(s)) == None
  {
    BlankInputIsNone(s);
  }
}
