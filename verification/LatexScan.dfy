/** Scanning LaTeX output the way TeX does: braces nest, a backslash takes the
    next character with it, and some characters must not stand bare. */
module LatexScan {
  import opened Ltrf
  import opened Latex

  datatype State = At(depth: nat, escaped: bool) | Bad

  predicate IsActive(c: char) { c in "&%$#_~^" }

  function Step(st: State, c: char): State {
    if st.Bad? then Bad
    else if st.escaped then At(st.depth, false)
    else if c == '\\' then At(st.depth, true)
    else if c == '{' then At(st.depth + 1, false)
    else if c == '}' then (if st.depth == 0 then Bad else At(st.depth - 1, false))
    else if IsActive(c) then Bad
    else st
  }

  function Run(st: State, s: string): State
    decreases |s|
  {
    if s == "" then st else Run(Step(st, s[0]), s[1..])
  }

  lemma {:induction false} RunConcat(st: State, a: string, b: string)
    ensures Run(st, a + b) == Run(Run(st, a), b)
    decreases |a|
  {
    hide Step;
    if a == "" {
      assert a + b == b;
    } else {
      assert (a + b)[1..] == a[1..] + b;
      RunConcat(Step(st, a[0]), a[1..], b);
    }
  }

  /** Scanning `s` from inside any number of braces comes back to the same place. */
  ghost predicate Neutral(s: string) {
    forall d: nat :: Run(At(d, false), s) == At(d, false)
  }

  lemma NeutralConcat(a: string, b: string)
    requires Neutral(a) && Neutral(b)
    ensures Neutral(a + b)
  {
    hide Run;
    forall d: nat
      ensures Run(At(d, false), a + b) == At(d, false)
    {
      RunConcat(At(d, false), a, b);
    }
  }

  lemma RunOne(st: State, c: char)
    ensures Run(st, [c]) == Step(st, c)
  {
    assert [c][1..] == "";
  }

  lemma NeutralInBraces(s: string)
    requires Neutral(s)
    ensures Neutral("{" + s + "}")
  {
    hide Run;
    forall d: nat
      ensures Run(At(d, false), "{" + s + "}") == At(d, false)
    {
      RunConcat(At(d, false), "{" + s, "}");
      RunConcat(At(d, false), "{", s);
      RunOne(At(d, false), '{');
      RunOne(At(d + 1, false), '}');
    }
  }

  lemma {:induction false} NeutralWord(w: string)
    requires forall k :: 0 <= k < |w| ==> IsLetter(w[k])
    ensures Neutral(w)
    decreases |w|
  {
    if w != "" {
      NeutralWord(w[1..]);
      forall d: nat
        ensures Run(At(d, false), w) == At(d, false)
      {
        assert Step(At(d, false), w[0]) == At(d, false);
      }
    }
  }

  /** A backslash and a word, or any one character. */
  lemma NeutralCommand(w: string)
    requires IsWord(w)
    ensures Neutral("\\" + w)
  {
    NeutralWord(w[1..]);
    forall d: nat
      ensures Run(At(d, false), "\\" + w) == At(d, false)
    {
      var s := "\\" + w;
      assert s[1..] == w;
      assert Run(At(d, false), s) == Run(At(d, true), w);
      assert Run(At(d, true), w) == Run(At(d, false), w[1..]);
    }
  }

  lemma NeutralPair(c: char)
    ensures Neutral(['\\', c])
  {
    forall d: nat
      ensures Run(At(d, false), ['\\', c]) == At(d, false)
    {
      assert ['\\', c][1..] == [c] && [c][1..] == [];
      assert Run(At(d, true), [c]) == Run(At(d, false), []);
    }
  }

  lemma NeutralOne(c: char)
    requires c != '\\' && c != '{' && c != '}' && !IsActive(c)
    ensures Neutral([c])
  {
    assert [c][1..] == [];
  }

  lemma NeutralEmpty()
    ensures Neutral("") && Neutral("{}")
  {
    NeutralInBraces("");
    assert "{" + "" + "}" == "{}";
  }

  lemma NeutralSpelled(w: string, out: string)
    requires IsWord(w) && out == "\\" + w + "{}"
    ensures Neutral(out)
  {
    NeutralCommand(w);
    NeutralEmpty();
    NeutralConcat("\\" + w, "{}");
  }

  lemma NeutralChar(c: char)
    ensures Neutral(EscapeChar(c))
  {
    hide Neutral, CharCommand;
    if IsSymbol(c) {
      NeutralPair(c);
      assert "\\" + [c] == ['\\', c];
    } else if IsSpelled(c) {
      CharCommandIsWord(c);
      NeutralSpelled(CharCommand(c), EscapeChar(c));
    } else {
      NeutralOne(c);
    }
  }

  lemma CharCommandIsWord(c: char)
    requires IsSpelled(c)
    ensures IsWord(CharCommand(c))
  {
  }

  lemma {:induction false} NeutralEscaped(s: string)
    ensures Neutral(Escaped(s))
  {
    hide Neutral, EscapeChar;
    if s == "" {
      NeutralEmpty();
    } else {
      NeutralChar(s[0]);
      NeutralEscaped(s[1..]);
      NeutralConcat(EscapeChar(s[0]), Escaped(s[1..]));
    }
  }

  /** The output of any tree is neutral: it can stand anywhere, and next to any
      other output. */
  lemma {:induction false} OutputIsNeutral(t: Table, o: Obj)
    requires WellNamed(t)
    ensures Output(t, o).Success? ==> Neutral(Output(t, o).value)
    decreases o
  {
    hide Neutral, Escaped, IsWord, IsReservedCommand;
    if o.Str? {
      NeutralEscaped(o.s);
    } else if o.tag in t {
      var u := t[o.tag];
      var code := OutputAll(t, o.elems);
      if u.NoCurly? {
        NeutralSpelled(u.command, "\\" + u.command + "{}");
      } else if code.Success? {
        OutputAllIsNeutral(t, o.elems);
        NeutralForm(u, code.value);
      }
    }
  }

  lemma NeutralForm(u: Outputter, code: string)
    requires Neutral(code) && (!u.Blank? ==> IsWord(CommandOf(u)))
    ensures u.SingleCurly? ==> Neutral("\\" + u.command + "{" + code + "}")
    ensures u.Block? ==> Neutral("\\begin{" + u.name + "}" + code + "\\end{" + u.name + "}")
    ensures u.Blank? ==> Neutral("\n\n" + code + "\n\n")
  {
    hide Neutral;
    match u
    case SingleCurly(command) => NeutralSingle(command, code);
    case Block(name) => NeutralBlock(name, code);
    case Blank =>
      NeutralOne('\n');
      NeutralConcat(['\n'], ['\n']);
      assert ['\n'] + ['\n'] == "\n\n";
      NeutralConcat("\n\n", code);
      NeutralConcat("\n\n" + code, "\n\n");
    case NoCurly(_) =>
  }

  lemma NeutralSingle(command: string, code: string)
    requires Neutral(code) && IsWord(command)
    ensures Neutral("\\" + command + "{" + code + "}")
  {
    hide Neutral;
    NeutralCommand(command);
    NeutralInBraces(code);
    NeutralConcat("\\" + command, "{" + code + "}");
    assert "\\" + command + "{" + code + "}" == ("\\" + command) + ("{" + code + "}");
  }

  lemma NeutralBlock(name: string, code: string)
    requires Neutral(code) && IsWord(name)
    ensures Neutral("\\begin{" + name + "}" + code + "\\end{" + name + "}")
  {
    hide Neutral;
    NeutralMark("begin", name);
    NeutralMark("end", name);
    var open, close := "\\" + "begin" + ("{" + name + "}"), "\\" + "end" + ("{" + name + "}");
    NeutralConcat(open, code);
    NeutralConcat(open + code, close);
    assert "\\begin{" + name + "}" + code + "\\end{" + name + "}" == open + code + close;
  }

  lemma NeutralMark(mark: string, name: string)
    requires IsWord(mark) && IsWord(name)
    ensures Neutral("\\" + mark + ("{" + name + "}"))
  {
    hide Neutral;
    NeutralWord(name);
    NeutralInBraces(name);
    NeutralCommand(mark);
    NeutralConcat("\\" + mark, "{" + name + "}");
  }

  lemma {:induction false} OutputAllIsNeutral(t: Table, es: seq<Obj>)
    requires WellNamed(t)
    ensures OutputAll(t, es).Success? ==> Neutral(OutputAll(t, es).value)
    decreases es
  {
    hide Neutral, WellNamed;
    if es == [] {
      NeutralEmpty();
    } else {
      OutputIsNeutral(t, es[0]);
      OutputAllIsNeutral(t, es[1..]);
      if OutputAll(t, es).Success? {
        NeutralConcat(Output(t, es[0]).value, OutputAll(t, es[1..]).value);
      }
    }
  }
}
