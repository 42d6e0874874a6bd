/** The subset of Python's `str.format` used to render a VM's serial-number
    template with the keyword arguments `name`, `id` and `deployment`:
    literal text, the escapes "{{" and "}}", and replacement fields that name
    one of the three keywords. Any other replacement field is treated as an
    error (conversions and format specifications are not modelled). */
module Format {
  import opened Wrappers
  import opened Text

  datatype Field = NameField | IdField | DeploymentField

  function FieldText(f: Field): string {
    match f
    case NameField => "name"
    case IdField => "id"
    case DeploymentField => "deployment"
  }

  function ParseField(s: string): (r: Option<Field>)
    ensures r.Some? ==> FieldText(r.value) == s
  {
    if s == "name" then Some(NameField)
    else if s == "id" then Some(IdField)
    else if s == "deployment" then Some(DeploymentField)
    else None
  }

  /** The keyword arguments of the call in the source: the VM's full name, its
      local id (rendered as `str(id)`) and the deployment name. */
  datatype Arguments = Arguments(name: string, id: int, deployment: string)

  function FieldValue(f: Field, args: Arguments): string {
    match f
    case NameField => args.name
    case IdField => IntToString(args.id)
    case DeploymentField => args.deployment
  }

  function Prepend(p: string, r: Result<string>): Result<string> {
    if r.Ok? then Ok(p + r.value) else r
  }

  /** `template.format(name=..., id=..., deployment=...)`; Err(FormatError)
      where Python raises (an unknown field, a single '}', an unclosed '{'). */
  function Render(t: string, args: Arguments): Result<string>
    decreases |t|
  {
    if |t| == 0 then Ok("")
    else if t[0] == '{' then
      if |t| >= 2 && t[1] == '{' then Prepend("{", Render(t[2..], args))
      else if '}' !in t[1..] then Err(FormatError)
      else
        var j := IndexOf(t[1..], '}') + 1;
        match ParseField(t[1..j])
        case None => Err(FormatError)
        case Some(f) => Prepend(FieldValue(f, args), Render(t[j + 1..], args))
    else if t[0] == '}' then
      if |t| >= 2 && t[1] == '}' then Prepend("}", Render(t[2..], args))
      else Err(FormatError)
    else Prepend([t[0]], Render(t[1..], args))
  }

  // ---------------------------------------------------------------------
  // A template as a sequence of pieces, and the text that spells it.

  datatype Piece = Text(s: string) | Placeholder(f: Field)

  /** Literal text written so that `format` reproduces it: braces doubled. */
  function Escape(s: string): string {
    if |s| == 0 then ""
    else if s[0] == '{' then "{{" + Escape(s[1..])
    else if s[0] == '}' then "}}" + Escape(s[1..])
    else [s[0]] + Escape(s[1..])
  }

  function Spell(ps: seq<Piece>): string {
    if |ps| == 0 then ""
    else match ps[0]
      case Text(s) => Escape(s) + Spell(ps[1..])
      case Placeholder(f) => "{" + FieldText(f) + "}" + Spell(ps[1..])
  }

  /** What the template means: its text with each placeholder replaced. */
  function Substitute(ps: seq<Piece>, args: Arguments): string {
    if |ps| == 0 then ""
    else match ps[0]
      case Text(s) => s + Substitute(ps[1..], args)
      case Placeholder(f) => FieldValue(f, args) + Substitute(ps[1..], args)
  }

  lemma PrependAssoc(a: string, b: string, r: Result<string>)
    ensures Prepend(a, Prepend(b, r)) == Prepend(a + b, r)
  {
    if r.Ok? {
      assert a + (b + r.value) == (a + b) + r.value;
    }
  }

  /** One step of Render over a character of literal text (a doubled brace
      counting as one character). */
  lemma RenderStep(c: char, tail: string, args: Arguments)
    ensures Render((if c == '{' || c == '}' then [c, c] else [c]) + tail, args)
            == Prepend([c], Render(tail, args))
  {
    var t := (if c == '{' || c == '}' then [c, c] else [c]) + tail;
    if c == '{' || c == '}' {
      assert t[2..] == tail;
    } else {
      assert t[1..] == tail;
    }
  }

  lemma {:induction false} RenderEscape(s: string, rest: string, args: Arguments)
    ensures Render(Escape(s) + rest, args) == Prepend(s, Render(rest, args))
    decreases |s|
  {
    if |s| == 0 {
      assert Escape(s) + rest == rest;
      var r := Render(rest, args);
      if r.Ok? { assert "" + r.value == r.value; }
    } else {
      var c := s[0];
      var tail := Escape(s[1..]) + rest;
      assert Escape(s) + rest == (if c == '{' || c == '}' then [c, c] else [c]) + tail;
      RenderStep(c, tail, args);
      RenderEscape(s[1..], rest, args);
      PrependAssoc([c], s[1..], Render(rest, args));
      assert [c] + s[1..] == s;
    }
  }

  lemma RenderPlaceholder(f: Field, rest: string, args: Arguments)
    ensures Render("{" + FieldText(f) + "}" + rest, args) == Prepend(FieldValue(f, args), Render(rest, args))
  {
    var t := "{" + FieldText(f) + "}" + rest;
    var n := |FieldText(f)|;
    assert t[1..][..n] == FieldText(f) && t[1..][n] == '}';
    IndexOfUnique(t[1..], '}', n);
    assert t[1..n + 1] == FieldText(f);
    assert t[n + 2..] == rest;
  }

  /** Rendering the spelling of a template substitutes its placeholders: for
      every template built from text and the three fields, `format` gives
      exactly the intended string. */
  lemma {:induction false} RenderSpell(ps: seq<Piece>, args: Arguments)
    ensures Render(Spell(ps), args) == Ok(Substitute(ps, args))
    decreases |ps|
  {
    if |ps| == 0 {
    } else {
      RenderSpell(ps[1..], args);
      match ps[0]
      case Text(s) =>
        RenderEscape(s, Spell(ps[1..]), args);
      case Placeholder(f) =>
        RenderPlaceholder(f, Spell(ps[1..]), args);
    }
  }

  /** A template without braces renders to itself. */
  lemma {:induction false} RenderPlain(s: string, args: Arguments)
    requires forall k :: 0 <= k < |s| ==> s[k] != '{' && s[k] != '}'
    ensures Render(s, args) == Ok(s)
    decreases |s|
  {
    if |s| > 0 {
      RenderPlain(s[1..], args);
      assert [s[0]] + s[1..] == s;
    }
  }
}
