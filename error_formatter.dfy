/**
 * The validation-error formatter handed to express-validator in app.js: a
 * dotted form-field path such as "user.address.street" is rewritten into the
 * bracket notation "user[address][street]" that HTML form field names use,
 * and returned together with the unchanged message and value.
 */
module ErrorFormatter {
  import opened Fields

  /** The record the formatter returns: `{param, msg, value}`. */
  datatype FormattedError<M, V> = FormattedError(param: string, msg: M, value: V)

  /** `"[" + seg + "]"` for every segment, in order. */
  function Brackets(segs: seq<string>): string
  {
    if segs == [] then ""
    else "[" + segs[0] + "]" + Brackets(segs[1..])
  }

  /** Appending one segment appends its bracketed form at the end. */
  lemma {:induction false} BracketsSnoc(segs: seq<string>, seg: string)
    ensures Brackets(segs + [seg]) == Brackets(segs) + "[" + seg + "]"
  {
    if segs == [] {
      assert segs + [seg] == [seg];
    } else {
      assert (segs + [seg])[1..] == segs[1..] + [seg];
      BracketsSnoc(segs[1..], seg);
    }
  }

  /**
   * What the formatter computes for `param`: the root field (everything up
   * to the first '.') followed by every further field in brackets.
   */
  function FormatParam(param: string): string
  {
    var fields := Split(param, '.');
    fields[0] + Brackets(fields[1..])
  }

  /**
   * The formatter itself. `namespace` plays the array that `shift()` pops at
   * the head; `formParam` grows by one bracketed segment per iteration.
   */
  method FormatError<M, V>(param: string, msg: M, value: V) returns (r: FormattedError<M, V>)
    ensures r.param == FormatParam(param)
    ensures r.msg == msg && r.value == value
  {
    var namespace := Split(param, '.');
    ghost var fields := namespace;
    var root := namespace[0];
    namespace := namespace[1..];
    var formParam := root;
    while |namespace| > 0
      invariant 1 <= |fields| - |namespace| <= |fields|
      invariant namespace == fields[|fields| - |namespace|..]
      invariant formParam == root + Brackets(fields[1..|fields| - |namespace|])
      decreases |namespace|
    {
      ghost var done := fields[1..|fields| - |namespace|];
      var seg := namespace[0];
      namespace := namespace[1..];
      BracketsSnoc(done, seg);
      assert fields[1..|fields| - |namespace|] == done + [seg];
      formParam := formParam + "[" + seg + "]";
    }
    assert fields[1..] == fields[1..|fields| - |namespace|];
    r := FormattedError(formParam, msg, value);
  }

  /*
   * An independent, character-by-character description of the same
   * rewriting: the first '.' becomes "[", every later '.' becomes "][",
   * every other character is kept, and a closing "]" is appended when there
   * was at least one '.'.
   */

  /** Rewrites the dots of `s`; `inside` says whether a "[" is already open. */
  function RewriteDots(s: string, inside: bool): string
  {
    if s == [] then ""
    else if s[0] == '.' then (if inside then "][" else "[") + RewriteDots(s[1..], true)
    else [s[0]] + RewriteDots(s[1..], inside)
  }

  function CharwiseFormat(param: string): string
  {
    RewriteDots(param, false) + (if '.' in param then "]" else "")
  }

  /** How the first field and the remaining fields of `s` arise from those of `s[1..]`. */
  lemma SplitStep(s: string)
    requires s != []
    ensures var fields, rest := Split(s, '.'), Split(s[1..], '.');
      if s[0] == '.' then fields[0] == [] && fields[1..] == rest
      else fields[0] == [s[0]] + rest[0] && fields[1..] == rest[1..]
  {
    var rest := Split(s[1..], '.');
    if s[0] == '.' {
      assert ([[]] + rest)[1..] == rest;
    } else {
      assert ([[s[0]] + rest[0]] + rest[1..])[1..] == rest[1..];
    }
  }

  /** Brackets of a non-empty sequence of segments, written out by its head. */
  lemma BracketsCons(segs: seq<string>)
    requires segs != []
    ensures Brackets(segs) == "[" + segs[0] + "]" + Brackets(segs[1..])
  {
  }

  /** With a bracket already open, rewriting closes onto the field structure. */
  lemma {:induction false} RewriteDotsOpened(s: string)
    ensures var fields := Split(s, '.');
      RewriteDots(s, true) + "]" == fields[0] + "]" + Brackets(fields[1..])
  {
    if s != [] {
      var fields, rest := Split(s, '.'), Split(s[1..], '.');
      var r := RewriteDots(s[1..], true);
      RewriteDotsOpened(s[1..]);
      SplitStep(s);
      assert r + "]" == rest[0] + "]" + Brackets(rest[1..]);
      if s[0] == '.' {
        BracketsCons(rest);
        calc {
          RewriteDots(s, true) + "]";
          "][" + r + "]";
          { assert "][" == "]" + "["; }
          "]" + "[" + r + "]";
          "]" + ("[" + (r + "]"));
          "]" + ("[" + (rest[0] + "]" + Brackets(rest[1..])));
          "]" + ("[" + rest[0] + "]" + Brackets(rest[1..]));
          "]" + Brackets(rest);
          fields[0] + "]" + Brackets(fields[1..]);
        }
      } else {
        calc {
          RewriteDots(s, true) + "]";
          [s[0]] + r + "]";
          [s[0]] + (r + "]");
          [s[0]] + (rest[0] + "]" + Brackets(rest[1..]));
          fields[0] + "]" + Brackets(fields[1..]);
        }
      }
    }
  }

  /** The loop's result agrees with the character-wise rewriting. */
  lemma {:induction false} FormatParamIsCharwise(param: string)
    ensures FormatParam(param) == CharwiseFormat(param)
  {
    if param != [] {
      var fields, rest := Split(param, '.'), Split(param[1..], '.');
      SplitStep(param);
      if param[0] == '.' {
        var r := RewriteDots(param[1..], true);
        RewriteDotsOpened(param[1..]);
        BracketsCons(rest);
        calc {
          CharwiseFormat(param);
          "[" + r + "]";
          "[" + (r + "]");
          "[" + (rest[0] + "]" + Brackets(rest[1..]));
          Brackets(rest);
          fields[0] + Brackets(fields[1..]);
        }
      } else {
        var r := RewriteDots(param[1..], false);
        FormatParamIsCharwise(param[1..]);
        assert '.' in param <==> '.' in param[1..];
        var tail := if '.' in param then "]" else "";
        assert r + tail == rest[0] + Brackets(rest[1..]);
        calc {
          CharwiseFormat(param);
          [param[0]] + r + tail;
          [param[0]] + (r + tail);
          [param[0]] + (rest[0] + Brackets(rest[1..]));
          fields[0] + Brackets(fields[1..]);
        }
      }
    }
  }

  /**
   * The result starts with the root field, which is the part of `param`
   * before its first '.' (all of it when there is none).
   */
  lemma StartsWithRoot(param: string)
    ensures var root := Split(param, '.')[0];
      root <= FormatParam(param) &&
      root <= param && '.' !in root && (|root| < |param| ==> param[|root|] == '.')
  {
    SplitHead(param, '.');
  }

  /** A param is left unchanged exactly when it holds no '.'. */
  lemma NoDotUnchanged(param: string)
    ensures FormatParam(param) == param <==> '.' !in param
  {
    FormatParamIsCharwise(param);
    if '.' !in param {
      RewriteDotsKeeps(param, false);
    } else {
      CountDots(param, false);
      CountConcat(RewriteDots(param, false), "]", '.');
      assert Count(FormatParam(param), '.') == 0 != Count(param, '.');
    }
  }

  lemma {:induction false} RewriteDotsKeeps(s: string, inside: bool)
    requires '.' !in s
    ensures RewriteDots(s, inside) == s
  {
    if s != [] {
      RewriteDotsKeeps(s[1..], inside);
    }
  }

  /** Rewriting removes every '.' and adds one '[' per '.'. */
  lemma {:induction false} CountDots(s: string, inside: bool)
    ensures Count(RewriteDots(s, inside), '.') == 0
    ensures Count(RewriteDots(s, inside), '[') == Count(s, '[') + Count(s, '.')
    ensures Count(RewriteDots(s, inside), ']') ==
      Count(s, ']') + Count(s, '.') - (if !inside && '.' in s then 1 else 0)
  {
    if s != [] {
      var head: string := if s[0] == '.' then (if inside then "][" else "[") else [s[0]];
      var inside' := inside || s[0] == '.';
      CountDots(s[1..], inside');
      CountConcat(head, RewriteDots(s[1..], inside'), '.');
      CountConcat(head, RewriteDots(s[1..], inside'), '[');
      CountConcat(head, RewriteDots(s[1..], inside'), ']');
      assert '.' in s <==> s[0] == '.' || '.' in s[1..];
    }
  }

  /**
   * One bracket pair is appended per '.' in `param`, i.e. per field after
   * the root: the result holds no '.', and exactly `Count(param, '.')` more
   * '[' and ']' characters than `param` does.
   */
  lemma BracketPairPerDot(param: string)
    ensures |Split(param, '.')| - 1 == Count(param, '.')
    ensures Count(FormatParam(param), '.') == 0
    ensures Count(FormatParam(param), '[') == Count(param, '[') + Count(param, '.')
    ensures Count(FormatParam(param), ']') == Count(param, ']') + Count(param, '.')
  {
    FormatParamIsCharwise(param);
    CountDots(param, false);
    var tail := if '.' in param then "]" else "";
    CountConcat(RewriteDots(param, false), tail, '.');
    CountConcat(RewriteDots(param, false), tail, '[');
    CountConcat(RewriteDots(param, false), tail, ']');
  }

  /**
   * Fields are kept in their original order, each wrapped in brackets, and
   * empty fields (from leading, trailing or doubled dots) stay as "[]".
   */
  lemma {:induction false} FieldsInOrder(root: string, segs: seq<string>)
    requires '.' !in root
    requires forall i :: 0 <= i < |segs| ==> '.' !in segs[i]
    ensures FormatParam(Join([root] + segs, '.')) == root + Brackets(segs)
  {
    var fields := [root] + segs;
    assert fields[0] == root && fields[1..] == segs;
    forall i | 0 <= i < |fields| ensures '.' !in fields[i] {
      if i > 0 {
        assert fields[i] == segs[i - 1];
      }
    }
    SplitJoin(fields, '.');
  }

  /** Worked examples: nested fields keep their order. */
  lemma ExampleNested()
    ensures FormatParam("a.b.c") == "a[b][c]"
  {
    SplitNoSeparator("c", '.');
    SplitPrefix("b", "c", '.');
    assert "b" + ['.'] + "c" == "b.c";
    SplitPrefix("a", "b.c", '.');
    assert "a" + ['.'] + "b.c" == "a.b.c";
    var fields := Split("a.b.c", '.');
    assert fields == ["a", "b", "c"];
    assert fields[1..] == ["b", "c"];
    BracketsCons(["b", "c"]);
    assert ["b", "c"][1..] == ["c"];
    BracketsCons(["c"]);
    assert ["c"][1..] == [];
  }

  /** Worked examples: doubled, leading and trailing dots give empty fields. */
  lemma ExampleDoubledDot()
    ensures FormatParam("a..b") == "a[][b]"
  {
  }

  lemma ExampleLeadingDot()
    ensures FormatParam(".a") == "[a]"
  {
  }

  lemma ExampleTrailingDot()
    ensures FormatParam("a.") == "a[]"
  {
  }

  /** Worked example: a name without dots is returned as it is. */
  lemma ExamplePlain()
    ensures FormatParam("email") == "email"
    ensures FormatParam("") == ""
  {
  }
}
