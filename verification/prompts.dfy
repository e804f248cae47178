/**
 * `get_system_prompt` (src/config.py): a system prompt built from a
 * template by `str.format` with the `depth` and `expertise` fields, plus a
 * level-specific addition for the podcast template only. The wording of the
 * templates and of the depth and expertise texts is a parameter; their keys
 * and the substitution rules are modelled.
 */
module Prompts {
  import opened Wrappers
  import opened Text

  const DepthKeys: set<string> := {"high-level", "low-level"}
  const ExpertiseKeys: set<string> := {"beginner", "amateur", "expert"}
  const DefaultDepth: string := "high-level"
  const DefaultExpertise: string := "amateur"

  /** The prompt texts: the two tables and the podcast's two additions. */
  datatype Catalog = Catalog(
    depth: map<string, string>,
    expertise: map<string, string>,
    beginnerExtra: string,
    expertExtra: string)

  /** The tables have exactly the keys the configuration defines. */
  predicate WellKeyed(c: Catalog) {
    c.depth.Keys == DepthKeys && c.expertise.Keys == ExpertiseKeys
  }

  /** A template string, and whether it is the podcast template object itself (an identity test, not equality). */
  datatype Template = Template(text: string, isPodcast: bool)

  /** What `str.format` raises: an unknown field name, or a lone brace. */
  datatype FormatError = UnknownField | LoneBrace

  // ---------------------------------------------------------------------
  // str.format with two named fields
  // ---------------------------------------------------------------------

  const DepthField: string := "{depth}"
  const ExpertiseField: string := "{expertise}"
  /** The brace that opens a field and the one that closes it. */
  const FieldOpen: char := DepthField[0]
  const FieldClose: char := DepthField[6]

  /**
   * `s.format(depth=d, expertise=e)`: "{{" and "}}" give one brace, the two
   * fields give their texts, and any other brace raises.
   */
  function Format(s: string, d: string, e: string): (r: Result<string, FormatError>)
    decreases |s|
  {
    if s == [] then Success([])
    else if StartsWith(s, "{{") then PrependTo("{", Format(s[2..], d, e))
    else if StartsWith(s, "}}") then PrependTo("}", Format(s[2..], d, e))
    else if StartsWith(s, DepthField) then PrependTo(d, Format(s[|DepthField|..], d, e))
    else if StartsWith(s, ExpertiseField) then PrependTo(e, Format(s[|ExpertiseField|..], d, e))
    else if s[0] == '{' then Failure(UnknownField)
    else if s[0] == '}' then Failure(LoneBrace)
    else PrependTo([s[0]], Format(s[1..], d, e))
  }

  function PrependTo(p: string, r: Result<string, FormatError>): Result<string, FormatError> {
    match r
    case Success(v) => Success(p + v)
    case Failure(err) => Failure(err)
  }

  /** `dict.get(key, "")` */
  function Lookup(m: map<string, string>, key: string): string {
    if key in m then m[key] else ""
  }

  /** The podcast's addition for an expertise level: only beginner and expert have one. */
  function PodcastExtra(c: Catalog, t: Template, expertise: string): (r: string)
    ensures !t.isPodcast ==> r == []
  {
    if !t.isPodcast then []
    else if expertise == "beginner" then c.beginnerExtra
    else if expertise == "expert" then c.expertExtra
    else []
  }

  /** `get_system_prompt(template, depth, expertise)`; a malformed template raises. */
  function SystemPrompt(c: Catalog, t: Template, depth: string, expertise: string): (r: Result<string, FormatError>)
    ensures r.Failure? <==> Format(t.text, Lookup(c.depth, depth), Lookup(c.expertise, expertise)).Failure?
  {
    match Format(t.text, Lookup(c.depth, depth), Lookup(c.expertise, expertise))
    case Success(v) => Success(v + PodcastExtra(c, t, expertise))
    case Failure(err) => Failure(err)
  }

  /**
   * `get_system_prompt(template)` with both keyword arguments left out: the
   * defaults are configured keys, so a well-keyed catalog fills the fields
   * with the high-level and amateur texts, and amateur has no podcast
   * addition.
   */
  function DefaultPrompt(c: Catalog, t: Template): (r: Result<string, FormatError>)
    requires WellKeyed(c)
    ensures r == Format(t.text, c.depth["high-level"], c.expertise["amateur"])
  {
    assert DefaultDepth in DepthKeys && DefaultExpertise in ExpertiseKeys;
    assert DefaultExpertise[0] != "beginner"[0] && DefaultExpertise[0] != "expert"[0];
    var r := SystemPrompt(c, t, DefaultDepth, DefaultExpertise);
    assert PodcastExtra(c, t, DefaultExpertise) == [];
    match Format(t.text, c.depth["high-level"], c.expertise["amateur"])
    case Success(v) => assert v + [] == v; r
    case Failure(_) => r
  }

  // ---------------------------------------------------------------------
  // Templates as pieces
  // ---------------------------------------------------------------------

  /** A template seen as literal text and the two fields. */
  datatype Piece = Lit(s: string) | DepthSlot | ExpertiseSlot

  /** A literal's source form: every brace doubled. */
  function Escape(s: string): (r: string)
    ensures |r| >= |s|
  {
    if s == [] then []
    else if s[0] == '{' || s[0] == '}' then [s[0], s[0]] + Escape(s[1..])
    else [s[0]] + Escape(s[1..])
  }

  /** The template text written for a sequence of pieces. */
  function Render(ps: seq<Piece>): string {
    if ps == [] then []
    else
      var head := match ps[0]
        case Lit(s) => Escape(s)
        case DepthSlot => DepthField
        case ExpertiseSlot => ExpertiseField;
      head + Render(ps[1..])
  }

  /** The pieces with each field replaced by its text: the reference meaning of a template. */
  function Fill(ps: seq<Piece>, d: string, e: string): string {
    if ps == [] then []
    else
      var head := match ps[0]
        case Lit(s) => s
        case DepthSlot => d
        case ExpertiseSlot => e;
      head + Fill(ps[1..], d, e)
  }

  // ---------------------------------------------------------------------
  // Properties
  // ---------------------------------------------------------------------

  lemma PrependAssoc(a: string, b: string, r: Result<string, FormatError>)
    ensures PrependTo(a, PrependTo(b, r)) == PrependTo(a + b, r)
  {
    if r.Success? {
      assert a + (b + r.value) == (a + b) + r.value;
    }
  }

  lemma Begins(u: string, p: string, rest: string)
    requires u == p + rest
    ensures StartsWith(u, p) && u[|p|..] == rest
  {
    assert u[..|p|] == p;
  }

  /** An ordinary character is copied through. */
  lemma FormatPlain(c: char, t: string, d: string, e: string)
    requires c != '{' && c != '}'
    ensures Format([c] + t, d, e) == PrependTo([c], Format(t, d, e))
  {
    var u := [c] + t;
    Differs(u, "{{", 0);
    Differs(u, "}}", 0);
    Differs(u, DepthField, 0);
    Differs(u, ExpertiseField, 0);
    assert u[1..] == t;
  }

  /** A doubled brace gives one brace. */
  lemma FormatDoubled(c: char, t: string, d: string, e: string)
    requires c == '{' || c == '}'
    ensures Format([c, c] + t, d, e) == PrependTo([c], Format(t, d, e))
  {
    var u := [c, c] + t;
    if c == '{' {
      Begins(u, "{{", t);
    } else {
      Differs(u, "{{", 0);
      Begins(u, "}}", t);
    }
  }

  /** The escaped form of a literal starts with its escaped first character. */
  lemma EscapeHead(s: string, rest: string)
    requires s != []
    ensures s[0] == '{' || s[0] == '}' ==> Escape(s) + rest == [s[0], s[0]] + (Escape(s[1..]) + rest)
    ensures s[0] != '{' && s[0] != '}' ==> Escape(s) + rest == [s[0]] + (Escape(s[1..]) + rest)
  {
    var head := if s[0] == '{' || s[0] == '}' then [s[0], s[0]] else [s[0]];
    assert Escape(s) == head + Escape(s[1..]);
    Assoc(head, Escape(s[1..]), rest);
  }

  lemma Assoc(a: string, b: string, c: string)
    ensures (a + b) + c == a + (b + c)
  {
  }

  /** Formatting an escaped literal gives the literal back, followed by whatever the rest formats to. */
  lemma {:induction false} FormatEscaped(s: string, rest: string, d: string, e: string)
    ensures Format(Escape(s) + rest, d, e) == PrependTo(s, Format(rest, d, e))
    decreases |s|
  {
    if s == [] {
      assert Escape(s) + rest == rest;
      assert PrependTo([], Format(rest, d, e)) == Format(rest, d, e) by {
        if Format(rest, d, e).Success? {
          assert [] + Format(rest, d, e).value == Format(rest, d, e).value;
        }
      }
    } else {
      var c := s[0];
      var t := Escape(s[1..]) + rest;
      FormatEscaped(s[1..], rest, d, e);
      EscapeHead(s, rest);
      if c == '{' || c == '}' {
        FormatDoubled(c, t, d, e);
      } else {
        FormatPlain(c, t, d, e);
      }
      PrependAssoc([c], s[1..], Format(rest, d, e));
      assert [c] + s[1..] == s;
    }
  }

  lemma FormatDepthField(rest: string, d: string, e: string)
    ensures Format(DepthField + rest, d, e) == PrependTo(d, Format(rest, d, e))
  {
    var u := DepthField + rest;
    Differs(u, "{{", 1);
    Differs(u, "}}", 0);
    Begins(u, DepthField, rest);
  }

  lemma FormatExpertiseField(rest: string, d: string, e: string)
    ensures Format(ExpertiseField + rest, d, e) == PrependTo(e, Format(rest, d, e))
  {
    var u := ExpertiseField + rest;
    Differs(u, "{{", 1);
    Differs(u, "}}", 0);
    Differs(u, DepthField, 1);
    Begins(u, ExpertiseField, rest);
  }

  /** Formatting the text written for some pieces never raises and gives the pieces filled in. */
  lemma {:induction false} FormatRender(ps: seq<Piece>, d: string, e: string)
    ensures Format(Render(ps), d, e) == Success(Fill(ps, d, e))
    decreases |ps|
  {
    if ps == [] {
    } else {
      var rest := Render(ps[1..]);
      FormatRender(ps[1..], d, e);
      match ps[0]
      case Lit(s) =>
        FormatEscaped(s, rest, d, e);
      case DepthSlot =>
        FormatDepthField(rest, d, e);
      case ExpertiseSlot =>
        FormatExpertiseField(rest, d, e);
    }
  }

  /**
   * The prompt for a template written from pieces: the pieces with the depth
   * and expertise texts filled in (empty for an unknown key), followed by
   * the podcast's level addition when the template is the podcast's.
   */
  lemma SystemPromptOfPieces(c: Catalog, ps: seq<Piece>, isPodcast: bool, depth: string, expertise: string)
    ensures var d := if depth in c.depth then c.depth[depth] else [];
      var e := if expertise in c.expertise then c.expertise[expertise] else [];
      SystemPrompt(c, Template(Render(ps), isPodcast), depth, expertise)
        == Success(Fill(ps, d, e) + PodcastExtra(c, Template(Render(ps), isPodcast), expertise))
  {
    FormatRender(ps, Lookup(c.depth, depth), Lookup(c.expertise, expertise));
  }

  /**
   * Only the podcast template is extended: with the beginner addition for
   * "beginner", the expert addition for "expert", nothing for any other
   * level; any other template gives exactly its substitution.
   */
  lemma OnlyPodcastExtended(c: Catalog, t: Template, depth: string, expertise: string)
    ensures var r := SystemPrompt(c, t, depth, expertise);
      var f := Format(t.text, Lookup(c.depth, depth), Lookup(c.expertise, expertise));
      && (!t.isPodcast ==> r == f)
      && (t.isPodcast && expertise == "beginner" && f.Success? ==> r == Success(f.value + c.beginnerExtra))
      && (t.isPodcast && expertise == "expert" && f.Success? ==> r == Success(f.value + c.expertExtra))
      && (t.isPodcast && expertise != "beginner" && expertise != "expert" ==> r == f)
  {
    var f := Format(t.text, Lookup(c.depth, depth), Lookup(c.expertise, expertise));
    if f.Success? {
      assert f.value + [] == f.value;
    }
  }

  /** With the configured tables, an unknown depth or expertise key fills its field with nothing. */
  lemma UnknownKeysFillNothing(c: Catalog, depth: string, expertise: string)
    requires WellKeyed(c)
    ensures depth !in DepthKeys ==> Lookup(c.depth, depth) == []
    ensures expertise !in ExpertiseKeys ==> Lookup(c.expertise, expertise) == []
    ensures depth in DepthKeys ==> Lookup(c.depth, depth) == c.depth[depth]
  {
  }

  /** The characters that end a field's name: `str.format` reads the name up to one of them. */
  predicate NameEnd(c: char) {
    c == '.' || c == '[' || c == ':' || c == '!' || c == FieldClose
  }

  /** A field name as `str.format` reads it: no brace and no character that ends a name. */
  predicate PlainName(name: string) {
    forall k :: 0 <= k < |name| ==> name[k] != FieldOpen && !NameEnd(name[k])
  }

  /**
   * A template that opens with a field whose name is neither "depth" nor
   * "expertise" (the empty name included, which asks for a positional
   * argument) raises, whatever follows the name.
   */
  lemma OtherFieldRaises(name: string, tail: string, d: string, e: string)
    requires PlainName(name) && name != "depth" && name != "expertise"
    requires tail != [] && NameEnd(tail[0])
    ensures Format([FieldOpen] + name + tail, d, e) == Failure(UnknownField)
  {
    var s := [FieldOpen] + name + tail;
    assert s[0] == FieldOpen;
    assert s[1] == if name != [] then name[0] else tail[0];
    assert !StartsWith(s, [FieldOpen, FieldOpen]);
    assert [FieldOpen] + "depth" + [FieldClose] == DepthField && [FieldOpen] + "expertise" + [FieldClose] == ExpertiseField;
    NotThatField(name, tail, "depth");
    NotThatField(name, tail, "expertise");
  }

  /** A field of another name does not open with the field `{f}`. */
  lemma NotThatField(name: string, tail: string, f: string)
    requires PlainName(name) && PlainName(f) && name != f
    requires tail != [] && NameEnd(tail[0])
    ensures !StartsWith([FieldOpen] + name + tail, [FieldOpen] + f + [FieldClose])
  {
    var s, p := [FieldOpen] + name + tail, [FieldOpen] + f + [FieldClose];
    if |name| < |f| {
      assert s[1 + |name|] == tail[0] && p[1 + |name|] == f[|name|];
      Differs(s, p, 1 + |name|);
    } else if |name| > |f| {
      assert s[1 + |f|] == name[|f|] && p[1 + |f|] == FieldClose;
      Differs(s, p, 1 + |f|);
    } else {
      var k :| 0 <= k < |f| && name[k] != f[k];
      assert s[1 + k] == name[k] && p[1 + k] == f[k];
      Differs(s, p, 1 + k);
    }
  }

  /** The field `{name}` raises. */
  lemma NameFieldRaises(d: string, e: string)
    ensures Format("{name}", d, e) == Failure(UnknownField)
  {
    OtherFieldRaises("name", [FieldClose], d, e);
    assert [FieldOpen] + "name" + [FieldClose] == "{name}";
  }
}
