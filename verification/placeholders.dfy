/** Positional-parameter emulation: the statement rewrites every `?` of the
    SQL text into `%s` and hands the result to `vsprintf` with the escaped
    parameter tokens. This module models both library calls as written and
    proves that, on a template without `%`, their composition is a plain
    left-to-right substitution of one token per `?`. */
module Placeholders {
  import opened Options
  import opened Strings

  /** `str_replace("?", "%s", t)`. */
  function ReplaceMarks(t: string): (f: string)
    ensures '?' !in f
    ensures |f| == |t| + CountChar(t, '?')
    ensures '%' !in t ==> CountChar(f, '%') == CountChar(t, '?')
  {
    if |t| == 0 then ""
    else
      var head := if t[0] == '?' then "%s" else [t[0]];
      CountCharAppend(head, ReplaceMarks(t[1..]), '%');
      CountCharAppend(head, ReplaceMarks(t[1..]), '?');
      head + ReplaceMarks(t[1..])
  }

  function Prepend(p: string, r: Option<string>): Option<string> {
    match r
    case None => None
    case Some(x) => Some(p + x)
  }

  /** `vsprintf(f, args)` for the directives this code can produce: `%s`
      consumes the next argument, `%%` is a literal percent sign. Any other
      directive, or a `%s` with no argument left, is outside the model
      (`None`). Arguments left over are ignored, as PHP does. */
  function VSprintf(f: string, args: seq<string>): (r: Option<string>)
    ensures '%' !in f ==> r == Some(f)
    decreases |f|
  {
    if |f| == 0 then Some("")
    else if f[0] != '%' then
      var r := Prepend([f[0]], VSprintf(f[1..], args));
      assert '%' !in f ==> [f[0]] + f[1..] == f;
      r
    else if |f| >= 2 && f[1] == '%' then Prepend("%", VSprintf(f[2..], args))
    else if |f| >= 2 && f[1] == 's' && |args| > 0 then Prepend(args[0], VSprintf(f[2..], args[1..]))
    else None
  }

  /** Replaces the `i`-th `?` of `t` by `tokens[i]`, left to right. */
  function Substitute(t: string, tokens: seq<string>): (r: string)
    requires CountChar(t, '?') <= |tokens|
    ensures CountChar(t, '?') == 0 ==> r == t
    decreases |t|
  {
    if |t| == 0 then ""
    else if t[0] == '?' then
      tokens[0] + Substitute(t[1..], tokens[1..])
    else
      assert t == [t[0]] + t[1..];
      [t[0]] + Substitute(t[1..], tokens)
  }

  /** Tokens free of `?` leave no placeholder behind. */
  lemma {:induction false} SubstituteNoMarks(t: string, tokens: seq<string>)
    requires CountChar(t, '?') <= |tokens|
    requires forall k :: 0 <= k < |tokens| ==> '?' !in tokens[k]
    ensures '?' !in Substitute(t, tokens)
    decreases |t|
  {
    if |t| > 0 {
      if t[0] == '?' {
        assert '?' !in tokens[0];
        SubstituteNoMarks(t[1..], tokens[1..]);
      } else {
        SubstituteNoMarks(t[1..], tokens);
      }
    }
  }

  /** `p0 + tokens[0] + p1 + tokens[1] + ... + pn`: the independent description
      of a substitution in terms of the text pieces between placeholders. */
  function Interleave(pieces: seq<string>, tokens: seq<string>): string
    requires 0 < |pieces| && |pieces| - 1 <= |tokens|
  {
    if |pieces| == 1 then pieces[0]
    else pieces[0] + tokens[0] + Interleave(pieces[1..], tokens[1..])
  }

  /** Rewriting `?` into `%s` and formatting with `vsprintf` substitutes the
      tokens one per `?`, left to right, whenever the template holds no `%`
      of its own and there is a token for every `?`. */
  lemma {:induction false} VSprintfOfReplaceMarks(t: string, tokens: seq<string>)
    requires '%' !in t
    requires CountChar(t, '?') <= |tokens|
    ensures VSprintf(ReplaceMarks(t), tokens) == Some(Substitute(t, tokens))
    decreases |t|
  {
    if |t| > 0 {
      var f := ReplaceMarks(t);
      var rest := ReplaceMarks(t[1..]);
      if t[0] == '?' {
        assert f == "%s" + rest;
        assert f[2..] == rest;
        VSprintfOfReplaceMarks(t[1..], tokens[1..]);
      } else {
        assert f == [t[0]] + rest;
        assert f[1..] == rest;
        VSprintfOfReplaceMarks(t[1..], tokens);
      }
    }
  }

  /** Text without `?` in front of a template passes through substitution unchanged. */
  lemma {:induction false} SubstitutePrefix(p: string, x: string, tokens: seq<string>)
    requires '?' !in p
    requires CountChar(x, '?') <= |tokens|
    ensures CountChar(p + x, '?') == CountChar(x, '?')
    ensures Substitute(p + x, tokens) == p + Substitute(x, tokens)
    decreases |p|
  {
    CountCharAppend(p, x, '?');
    if |p| > 0 {
      assert (p + x)[0] == p[0];
      assert (p + x)[1..] == p[1..] + x;
      SubstitutePrefix(p[1..], x, tokens);
      assert p == [p[0]] + p[1..];
    } else {
      assert p + x == x;
    }
  }

  /** The pieces between placeholders are one more than the placeholders. */
  lemma {:induction false} SplitCount(t: string)
    ensures |Split(t, '?')| == CountChar(t, '?') + 1
    decreases |t|
  {
    match IndexOfChar(t, '?')
    case None =>
    case Some(k) =>
      var p := t[..k];
      var rest := t[k + 1..];
      assert t == p + ("?" + rest);
      CountCharAppend(p, "?" + rest, '?');
      CountCharAppend("?", rest, '?');
      SplitCount(rest);
  }

  /** A leading `?` takes the first token. */
  lemma SubstituteMark(rest: string, tokens: seq<string>)
    requires CountChar(rest, '?') < |tokens|
    ensures CountChar("?" + rest, '?') == CountChar(rest, '?') + 1
    ensures Substitute("?" + rest, tokens) == tokens[0] + Substitute(rest, tokens[1..])
  {
    CountCharAppend("?", rest, '?');
    assert ("?" + rest)[1..] == rest;
  }

  lemma InterleaveCons(p: string, pieces: seq<string>, tokens: seq<string>)
    requires 0 < |pieces| && |pieces| <= |tokens|
    ensures Interleave([p] + pieces, tokens) == p + tokens[0] + Interleave(pieces, tokens[1..])
  {
    assert ([p] + pieces)[1..] == pieces;
  }

  /** Substitution is the interleaving of the text between the placeholders
      with the tokens: every token is used once, in order, and nothing of the
      template other than the `?` characters is lost. */
  lemma {:induction false} SubstituteIsInterleave(t: string, tokens: seq<string>)
    requires CountChar(t, '?') <= |tokens|
    ensures |Split(t, '?')| == CountChar(t, '?') + 1
    ensures Substitute(t, tokens) == Interleave(Split(t, '?'), tokens)
    decreases |t|
  {
    SplitCount(t);
    match IndexOfChar(t, '?')
    case None =>
    case Some(k) =>
      var p := t[..k];
      var rest := t[k + 1..];
      var mark := "?" + rest;
      assert t == p + mark;
      assert Split(t, '?') == [p] + Split(rest, '?');
      CountCharAppend(p, mark, '?');
      SubstitutePrefix(p, mark, tokens);
      SubstituteMark(rest, tokens);
      SubstituteIsInterleave(rest, tokens[1..]);
      SplitCount(rest);
      InterleaveCons(p, Split(rest, '?'), tokens);
      ConcatAssoc(p, tokens[0], Substitute(rest, tokens[1..]));
  }
}
