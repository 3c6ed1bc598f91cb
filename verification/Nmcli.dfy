/** Splitting a terse `nmcli` row, in which `:` separates fields and `\` escapes. */
module Nmcli {
  /** What is left to do: the fields so far, and whether the next character is escaped. */
  function Scan(line: string, fields: seq<string>, escaped: bool): (r: seq<string>)
    requires fields != []
    ensures |r| >= |fields|
    decreases |line|
  {
    if line == [] then if escaped then Push(fields, '\\') else fields
    else if escaped then Scan(line[1..], Push(fields, line[0]), false)
    else if line[0] == '\\' then Scan(line[1..], fields, true)
    else if line[0] == ':' then Scan(line[1..], fields + [""], false)
    else Scan(line[1..], Push(fields, line[0]), false)
  }

  function Push(fields: seq<string>, c: char): (r: seq<string>)
    requires fields != []
    ensures |r| == |fields|
  {
    fields[|fields| - 1 := fields[|fields| - 1] + [c]]
  }

  method SplitFields(line: string) returns (fields: seq<string>)
    ensures fields == Scan(line, [""], false)
    ensures fields != []
  {
    fields := [""];
    var escaped := false;
    for i := 0 to |line|
      invariant fields != [] && Scan(line[i..], fields, escaped) == Scan(line, [""], false)
    {
      var c := line[i];
      assert line[i..][0] == c && line[i..][1..] == line[i + 1..];
      if escaped {
        fields := Push(fields, c);
        escaped := false;
      } else if c == '\\' {
        escaped := true;
      } else if c == ':' {
        fields := fields + [""];
      } else {
        fields := Push(fields, c);
      }
    }
    if escaped {
      fields := Push(fields, '\\');
    }
  }

  // ----- The writer's side ---------------------------------------------------------------

  function EscapeField(field: string): string {
    if field == [] then []
    else (if field[0] == ':' || field[0] == '\\' then ['\\', field[0]] else [field[0]]) + EscapeField(field[1..])
  }

  function JoinFields(fields: seq<string>): string
    requires fields != []
  {
    if |fields| == 1 then EscapeField(fields[0])
    else EscapeField(fields[0]) + ([':'] + JoinFields(fields[1..]))
  }

  function Append(fields: seq<string>, text: string): (r: seq<string>)
    requires fields != []
    ensures |r| == |fields|
  {
    fields[|fields| - 1 := fields[|fields| - 1] + text]
  }

  lemma AppendNothing(fields: seq<string>)
    requires fields != []
    ensures Append(fields, "") == fields
  {
    assert fields[|fields| - 1] + "" == fields[|fields| - 1];
  }

  lemma AppendOneMore(fields: seq<string>, c: char, tail: string)
    requires fields != []
    ensures Append(Push(fields, c), tail) == Append(fields, [c] + tail)
  {
    var last := fields[|fields| - 1];
    assert last + [c] + tail == last + ([c] + tail);
  }

  lemma AppendFresh(before: seq<string>, field: string)
    ensures Append(before + [""], field) == before + [field]
  {
    assert "" + field == field;
  }

  /** An escaped first character, or a plain one, is added to the current field. */
  lemma {:induction false} ScanOne(c: char, after: string, fields: seq<string>)
    requires fields != []
    ensures c == ':' || c == '\\' ==> Scan(['\\', c] + after, fields, false) == Scan(after, Push(fields, c), false)
    ensures c != ':' && c != '\\' ==> Scan([c] + after, fields, false) == Scan(after, Push(fields, c), false)
  {
    var escaped := ['\\', c] + after;
    assert escaped[1..] == [c] + after && ([c] + after)[1..] == after;
  }

  lemma {:induction false} ScanEscaped(field: string, rest: string, fields: seq<string>)
    requires fields != []
    ensures Scan(EscapeField(field) + rest, fields, false) == Scan(rest, Append(fields, field), false)
    decreases |field|
  {
    hide Scan, Append, Push;
    if field == [] {
      assert EscapeField(field) + rest == rest;
      AppendNothing(fields);
    } else {
      var c, tail := field[0], field[1..];
      var after := EscapeField(tail) + rest;
      ScanOne(c, after, fields);
      ScanEscaped(tail, rest, Push(fields, c));
      AppendOneMore(fields, c, tail);
      assert field == [c] + tail;
      if c == ':' || c == '\\' {
        assert EscapeField(field) + rest == ['\\', c] + after;
      } else {
        assert EscapeField(field) + rest == [c] + after;
      }
    }
  }

  lemma {:induction false} ScanJoined(fields: seq<string>, before: seq<string>)
    requires fields != []
    ensures Scan(JoinFields(fields), before + [""], false) == before + fields
    decreases |fields|
  {
    var field, rest := fields[0], fields[1..];
    if rest == [] {
      assert EscapeField(field) + "" == EscapeField(field);
      ScanEscaped(field, "", before + [""]);
      AppendFresh(before, field);
      assert fields == [field];
    } else {
      var tail := [':'] + JoinFields(rest);
      ScanEscaped(field, tail, before + [""]);
      AppendFresh(before, field);
      assert tail[1..] == JoinFields(rest);
      ScanJoined(rest, before + [field]);
      assert before + [field] + rest == before + fields;
    }
  }

  /** Splitting undoes escaping and joining, for every non-empty list of fields. */
  lemma {:induction false} SplitUndoesJoin(fields: seq<string>)
    requires fields != []
    ensures Scan(JoinFields(fields), [""], false) == fields
  {
    ScanJoined(fields, []);
    assert [] + [""] == [""] && [] + fields == fields;
  }
}
