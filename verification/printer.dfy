/** The run-time side of the pretty-printer (include/print/print.h): a
    value tree with one constructor per `_printer` specialisation, its
    rendering, the stream-writing printers with their `once` separator
    flag, and the `print` / `printnl` / `eprint` / `eprintnl` /
    `to_string` entry points. What the primary template writes
    (`os << val`) is taken as an opaque string. */
module Printer {
  import opened Basics
  import opened PrintTraits

  const NUL: char := '\0'

  /** A printable value, shaped by the printer its type selects. */
  datatype Value =
    | Text(shown: string)           // primary template: whatever `os << val` writes
    | Chr(c: char)                  // `is_char`
    | Tup(elems: seq<Value>)        // tuple-like, not an array
    | Items(elems: seq<Value>)      // iterable, not a map or text
    | Dict(entries: seq<Entry>)     // map, in iteration order
    | Opt(held: Option<Value>)      // std::optional
    | Alt(index: nat, alt: Value)   // std::variant holding alternative `index`
    | NullPtr
    | NullOpt
    | Mono

  datatype Entry = Entry(key: Value, mapped: Value)

  /** Parts joined by `sep`, built the way the `once` loops build it: the
      separator goes in front of every part but the first. */
  function Join(ps: seq<string>, sep: string): string
  {
    if |ps| == 0 then ""
    else if |ps| == 1 then ps[0]
    else Join(ps[..|ps| - 1], sep) + sep + ps[|ps| - 1]
  }

  /** `sep + q` for every `q`, concatenated: the tail of the fold
      expression `((os << " ", print(ts)), ...)`. */
  function Prefixed(qs: seq<string>, sep: string): string
  {
    if |qs| == 0 then "" else sep + qs[0] + Prefixed(qs[1..], sep)
  }

  /** The total length of the parts. */
  function Total(ps: seq<string>): nat
  {
    if |ps| == 0 then 0 else Total(ps[..|ps| - 1]) + |ps[|ps| - 1]|
  }

  /** The characters of a NUL-terminated buffer before its terminator. */
  function CString(buf: seq<char>): (r: string)
    ensures |r| <= |buf|
    ensures forall i :: 0 <= i < |r| ==> r[i] == buf[i] && r[i] != NUL
    ensures |r| < |buf| ==> buf[|r|] == NUL
  {
    if |buf| == 0 || buf[0] == NUL then [] else [buf[0]] + CString(buf[1..])
  }

  /** The inserter of `std::quoted` ([quoted.manip] of the C++ standard):
      every delimiter and escape character is preceded by the escape. */
  function Escaped(s: string, delim: char, escape: char): string
  {
    if |s| == 0 then []
    else (if s[0] == delim || s[0] == escape then [escape, s[0]] else [s[0]]) + Escaped(s[1..], delim, escape)
  }

  function Quoted(s: string, delim: char, escape: char): string
  {
    [delim] + Escaped(s, delim, escape) + [delim]
  }

  /** The extractor of `std::quoted`, after the opening delimiter: read up
      to the first unescaped delimiter, dropping escapes; the rest of the
      input is returned with it. None when the input ends first. */
  function ReadQuoted(t: string, delim: char, escape: char): Option<(string, string)>
  {
    if |t| == 0 then None
    else if t[0] == escape then
      if |t| == 1 then None
      else match ReadQuoted(t[2..], delim, escape)
        case None => None
        case Some(p) => Some(([t[1]] + p.0, p.1))
    else if t[0] == delim then Some(([], t[1..]))
    else match ReadQuoted(t[1..], delim, escape)
      case None => None
      case Some(p) => Some(([t[0]] + p.0, p.1))
  }

  /** The extractor of `std::quoted` on input that starts with the
      delimiter. */
  function Unquote(t: string, delim: char, escape: char): Option<(string, string)>
  {
    if |t| == 0 || t[0] != delim then None else ReadQuoted(t[1..], delim, escape)
  }

  function Render(v: Value): string
    decreases v, 1
  {
    match v
    case Text(s) => s
    case Chr(c) => Quoted(CString([c, NUL]), '\'', '\\')
    case Tup(es) => "(" + Join(Parts(es), ", ") + ")"
    case Items(es) => "[" + Join(Parts(es), ", ") + "]"
    case Dict(_) => "{" + Join(EntryParts(v), ", ") + "}"
    case Opt(h) => if h.Some? then Render(h.value) else "nullopt"
    case Alt(_, a) => Render(a)
    case NullPtr => "nullptr"
    case NullOpt => "nullopt"
    case Mono => "monostate"
  }

  /** Each value rendered on its own. */
  function Parts(es: seq<Value>): (r: seq<string>)
    decreases es
    ensures |r| == |es|
    ensures forall i :: 0 <= i < |es| ==> r[i] == Render(es[i])
  {
    if |es| == 0 then [] else Parts(es[..|es| - 1]) + [Render(es[|es| - 1])]
  }

  /** Each entry of a map value rendered as `key: value`. */
  function EntryParts(v: Value): (r: seq<string>)
    requires v.Dict?
    decreases v, 0
    ensures |r| == |v.entries|
  {
    seq(|v.entries|, i requires 0 <= i < |v.entries| => Render(v.entries[i].key) + ": " + Render(v.entries[i].mapped))
  }

  /** The text the argument list of `print` and friends produces: the first
      argument, then a space and the next argument for each further one. */
  function Line(args: seq<Value>): string
    requires |args| > 0
  {
    Render(args[0]) + Prefixed(Parts(args[1..]), " ")
  }

  // ---------------------------------------------------------------------
  // Joining

  lemma {:induction false} JoinStep(ps: seq<string>, sep: string, i: nat)
    requires i < |ps|
    ensures Join(ps[..i + 1], sep) == Join(ps[..i], sep) + (if i == 0 then "" else sep) + ps[i]
  {
    assert ps[..i + 1][..i] == ps[..i];
  }

  lemma {:induction false} PrefixedSnoc(qs: seq<string>, q: string, sep: string)
    ensures Prefixed(qs + [q], sep) == Prefixed(qs, sep) + sep + q
    decreases |qs|
  {
    if |qs| == 0 {
      assert Prefixed([q], sep) == sep + q + Prefixed([], sep);
    } else {
      assert (qs + [q])[1..] == qs[1..] + [q];
      PrefixedSnoc(qs[1..], q, sep);
    }
  }

  /** Joining is the first part followed by every other part with the
      separator in front of it. */
  lemma {:induction false} JoinIsLeadingThenPrefixed(ps: seq<string>, sep: string)
    requires |ps| > 0
    ensures Join(ps, sep) == ps[0] + Prefixed(ps[1..], sep)
    decreases |ps|
  {
    if |ps| > 1 {
      var init := ps[..|ps| - 1];
      JoinIsLeadingThenPrefixed(init, sep);
      assert init[1..] + [ps[|ps| - 1]] == ps[1..];
      PrefixedSnoc(init[1..], ps[|ps| - 1], sep);
    }
  }

  /** Joining n parts adds exactly n - 1 separators and nothing else. */
  lemma {:induction false} JoinLength(ps: seq<string>, sep: string)
    requires |ps| > 0
    ensures |Join(ps, sep)| == Total(ps) + (|ps| - 1) * |sep|
    decreases |ps|
  {
    if |ps| > 1 {
      JoinLength(ps[..|ps| - 1], sep);
    }
  }

  // ---------------------------------------------------------------------
  // Character quoting

  lemma {:induction false} EscapedAppend(s: string, c: char, delim: char, escape: char)
    ensures Escaped(s + [c], delim, escape)
         == Escaped(s, delim, escape) + (if c == delim || c == escape then [escape, c] else [c])
    decreases |s|
  {
    if |s| > 0 {
      assert (s + [c])[1..] == s[1..] + [c];
      EscapedAppend(s[1..], c, delim, escape);
    }
  }

  /** Reading back what the inserter wrote gives the original string and
      leaves whatever followed untouched. */
  lemma {:induction false} ReadQuotedEscaped(s: string, rest: string, delim: char, escape: char)
    requires delim != escape
    ensures ReadQuoted(Escaped(s, delim, escape) + [delim] + rest, delim, escape) == Some((s, rest))
    decreases |s|
  {
    var t := Escaped(s, delim, escape) + [delim] + rest;
    if |s| == 0 {
      assert t == [delim] + rest;
    } else {
      ReadQuotedEscaped(s[1..], rest, delim, escape);
      var tail := Escaped(s[1..], delim, escape) + [delim] + rest;
      if s[0] == delim || s[0] == escape {
        assert t == [escape, s[0]] + tail;
        assert t[2..] == tail;
      } else {
        assert t == [s[0]] + tail;
        assert t[1..] == tail;
      }
      assert [s[0]] + s[1..] == s;
    }
  }

  /** `std::quoted` round-trips: extraction inverts insertion. */
  lemma QuotedRoundTrip(s: string, rest: string, delim: char, escape: char)
    requires delim != escape
    ensures Unquote(Quoted(s, delim, escape) + rest, delim, escape) == Some((s, rest))
  {
    var t := Quoted(s, delim, escape) + rest;
    assert t[1..] == Escaped(s, delim, escape) + [delim] + rest;
    ReadQuotedEscaped(s, rest, delim, escape);
  }

  /** A character prints between single quotes, a quote or backslash behind
      a backslash; NUL ends the two-character buffer at once and prints as
      an empty quoted string. Reading the text back recovers every character
      except NUL, which reads back as the empty string. */
  lemma CharRendering(c: char)
    ensures Render(Chr(c)) == if c == NUL then "''"
                              else if c == '\'' || c == '\\' then ['\'', '\\', c, '\'']
                              else ['\'', c, '\'']
    ensures Unquote(Render(Chr(c)), '\'', '\\') == Some((if c == NUL then "" else [c], ""))
  {
    var s := CString([c, NUL]);
    if c == NUL {
      assert [c, NUL][0] == NUL;
    } else {
      assert [c, NUL][1..] == [NUL];
      assert CString([NUL]) == [];
    }
    assert s == if c == NUL then "" else [c];
    if c == NUL {
      assert Escaped(s, '\'', '\\') == [];
    } else {
      assert s[1..] == [];
      assert Escaped(s, '\'', '\\') == (if c == '\'' || c == '\\' then ['\\', c] else [c]) + Escaped([], '\'', '\\');
    }
    assert Render(Chr(c)) == Quoted(s, '\'', '\\');
    QuotedRoundTrip(s, "", '\'', '\\');
    assert Quoted(s, '\'', '\\') + "" == Quoted(s, '\'', '\\');
  }

  // ---------------------------------------------------------------------
  // Shapes of the output

  /** Empty tuples, containers and maps print as their bare delimiters. */
  lemma EmptyDelimiters()
    ensures Render(Tup([])) == "()" && Render(Items([])) == "[]" && Render(Dict([])) == "{}"
  {
    assert Parts([]) == [];
    assert EntryParts(Dict([])) == [];
  }

  /** A pair prints with exactly one separator. */
  lemma PairHasOneSeparator(a: Value, b: Value)
    ensures Render(Tup([a, b])) == "(" + Render(a) + ", " + Render(b) + ")"
  {
    var ps := Parts([a, b]);
    assert ps == [Render(a), Render(b)];
    assert ps[..1] == [Render(a)];
    assert Join(ps, ", ") == Join(ps[..1], ", ") + ", " + ps[1];
  }

  /** A one-entry map prints as `{key: value}`. */
  lemma SingleEntryMap(a: Value, b: Value)
    ensures Render(Dict([Entry(a, b)])) == "{" + Render(a) + ": " + Render(b) + "}"
  {
    assert EntryParts(Dict([Entry(a, b)])) == [Render(a) + ": " + Render(b)];
  }

  /** A container of n elements prints as its elements' texts, n - 1
      separators and the two brackets. */
  lemma ListLength(es: seq<Value>)
    requires |es| > 0
    ensures |Render(Items(es))| == 2 + Total(Parts(es)) + 2 * (|es| - 1)
  {
    JoinLength(Parts(es), ", ");
  }

  /** An empty optional prints the same as a bare `nullopt`; a present one,
      and a variant, print exactly as the value they hold. */
  lemma {:induction false} TransparentWrappers(v: Value, i: nat)
    ensures Render(Opt(None)) == Render(NullOpt) == "nullopt"
    ensures Render(Opt(Some(v))) == Render(v) && Render(Alt(i, v)) == Render(v)
    ensures Render(NullPtr) == "nullptr" && Render(Mono) == "monostate"
  {
  }

  // ---------------------------------------------------------------------
  // Values of a type

  /** The component types of a tuple-like type. */
  function Components(t: Ty): seq<Ty>
    requires t.Pair? || t.TupleT?
  {
    if t.Pair? then [t.first, t.second] else t.components
  }

  /** `v` is a value of type `t`: its constructor is the printer `t`
      selects, and so on down the tree; arrays have their bound. */
  predicate Fits(v: Value, t: Ty)
    decreases v
  {
    match Select(t)
    case DefaultP => v.Text?
    case CharP => v.Chr?
    case TupleP =>
      && v.Tup? && (t.Pair? || t.TupleT?) && |v.elems| == |Components(t)|
      && forall i :: 0 <= i < |v.elems| ==> Fits(v.elems[i], Components(t)[i])
    case IterableP =>
      && v.Items? && (t.RawArray? || t.StdArray? || t.Sequence?)
      && (t.RawArray? ==> t.bound == Some(|v.elems|))
      && (t.StdArray? ==> t.size == |v.elems|)
      && forall i :: 0 <= i < |v.elems| ==> Fits(v.elems[i], t.elem)
    case MapP =>
      && v.Dict? && t.Associative?
      && forall i :: 0 <= i < |v.entries| ==> Fits(v.entries[i].key, t.key) && Fits(v.entries[i].mapped, t.mapped)
    case OptionalP => v.Opt? && t.OptionalT? && (v.held.Some? ==> Fits(v.held.value, t.elem))
    case VariantP => v.Alt? && t.VariantT? && v.index < |t.alternatives| && Fits(v.alt, t.alternatives[v.index])
    case NullptrP => v.NullPtr?
    case NulloptP => v.NullOpt?
    case MonostateP => v.Mono?
  }

  /** Strings, string views, character pointers and character arrays print
      verbatim through `os << val`: never bracketed, never quoted. */
  lemma TextPrintsVerbatim(v: Value, t: Ty)
    requires Fits(v, t) && (IsString(t) || IsCStr(t))
    ensures v.Text? && Render(v) == v.shown
  {
    assert !Enables(IterableP, t) && !Enables(TupleP, t);
  }

  /** A `std::array<T, N>` value, though tuple-like, prints as a bracketed
      list of its N elements. */
  lemma StdArrayPrintsAsList(v: Value, e: Ty, n: nat)
    requires Fits(v, StdArray(e, n))
    ensures IsTuple(StdArray(e, n)) && IsIterable(StdArray(e, n))
    ensures v.Items? && |v.elems| == n
    ensures Render(v) == "[" + Join(Parts(v.elems), ", ") + "]"
  {
  }

  /** Map keys use the key type's printer: `std::string` keys print
      without quotes, so entry i starts with the key text itself. */
  lemma StringKeysPrintUnquoted(v: Value, k: CharKind, m: Ty, i: nat)
    requires Fits(v, Associative(BasicString(k), m)) && i < |v.entries|
    ensures v.entries[i].key.Text?
    ensures EntryParts(v)[i] == v.entries[i].key.shown + ": " + Render(v.entries[i].mapped)
  {
  }

  // ---------------------------------------------------------------------
  // Writing to a stream

  /** `os << std::quoted(buf, delim)` for a NUL-terminated buffer. */
  method WriteQuoted(os: string, buf: seq<char>, delim: char, escape: char) returns (out: string)
    ensures out == os + Quoted(CString(buf), delim, escape)
  {
    out := os + [delim];
    var i := 0;
    while i < |buf| && buf[i] != NUL
      invariant 0 <= i <= |buf|
      invariant i <= |CString(buf)|
      invariant out == os + [delim] + Escaped(buf[..i], delim, escape)
    {
      EscapedAppend(buf[..i], buf[i], delim, escape);
      assert buf[..i + 1] == buf[..i] + [buf[i]];
      out := out + (if buf[i] == delim || buf[i] == escape then [escape, buf[i]] else [buf[i]]);
      i := i + 1;
    }
    assert buf[..i] == CString(buf);
    out := out + [delim];
  }

  lemma Enclosed(os: string, open: string, body: string, close: string)
    ensures os + open + body + close == os + (open + body + close)
  {
  }

  /** `_printer<T>::print(os, v)`: appends exactly the rendering of `v`. */
  method Write(os: string, v: Value) returns (out: string)
    ensures out == os + Render(v)
    decreases v, 1
  {
    match v
    case Text(s) => out := os + s;
    case Chr(c) => out := WriteQuoted(os, [c, NUL], '\'', '\\');
    case Tup(es) =>
      out := WriteSeparated(os + "(", es);
      out := out + ")";
      Enclosed(os, "(", Join(Parts(es), ", "), ")");
    case Items(es) =>
      out := WriteSeparated(os + "[", es);
      out := out + "]";
      Enclosed(os, "[", Join(Parts(es), ", "), "]");
    case Dict(_) =>
      out := WriteEntries(os + "{", v);
      out := out + "}";
      Enclosed(os, "{", Join(EntryParts(v), ", "), "}");
    case Opt(h) =>
      if h.Some? {
        out := Write(os, h.value);
      } else {
        out := os + "nullopt";
      }
    case Alt(_, a) => out := Write(os, a);
    case NullPtr => out := os + "nullptr";
    case NullOpt => out := os + "nullopt";
    case Mono => out := os + "monostate";
  }

  /** The element loop of the tuple and iterable printers: `", "` before
      every element once the `once` flag is set. */
  method WriteSeparated(os: string, es: seq<Value>) returns (out: string)
    ensures out == os + Join(Parts(es), ", ")
    decreases es
  {
    out := os;
    var once := false;
    var i := 0;
    while i < |es|
      invariant 0 <= i <= |es|
      invariant once <==> i > 0
      invariant out == os + Join(Parts(es)[..i], ", ")
    {
      JoinStep(Parts(es), ", ", i);
      if once {
        out := out + ", ";
      }
      once := true;
      out := Write(out, es[i]);
      i := i + 1;
    }
    assert Parts(es)[..i] == Parts(es);
  }

  /** The entry loop of the map printer: `", "` before every entry but
      the first. */
  method WriteEntries(os: string, v: Value) returns (out: string)
    requires v.Dict?
    ensures out == os + Join(EntryParts(v), ", ")
    decreases v, 0, 1
  {
    out := os;
    var once := false;
    var i := 0;
    while i < |v.entries|
      invariant 0 <= i <= |v.entries|
      invariant once <==> i > 0
      invariant out == os + Join(EntryParts(v)[..i], ", ")
    {
      JoinStep(EntryParts(v), ", ", i);
      if once {
        out := out + ", ";
      }
      once := true;
      out := WriteEntry(out, v, i);
      i := i + 1;
    }
    assert EntryParts(v)[..i] == EntryParts(v);
  }

  /** One map entry: the key's printer, `": "`, the mapped value's printer. */
  method WriteEntry(os: string, v: Value, i: nat) returns (out: string)
    requires v.Dict? && i < |v.entries|
    ensures out == os + EntryParts(v)[i]
    decreases v, 0, 0
  {
    out := Write(os, v.entries[i].key);
    out := out + ": ";
    out := Write(out, v.entries[i].mapped);
  }

  /** The lambda shared by the entry points: the first argument, then
      `" "` and each further argument. */
  method WriteArgs(os: string, args: seq<Value>) returns (out: string)
    requires |args| > 0
    ensures out == os + Line(args)
  {
    out := Write(os, args[0]);
    var i := 1;
    while i < |args|
      invariant 1 <= i <= |args|
      invariant out == os + Join(Parts(args)[..i], " ")
    {
      JoinStep(Parts(args), " ", i);
      out := out + " ";
      out := Write(out, args[i]);
      i := i + 1;
    }
    assert Parts(args)[..i] == Parts(args);
    LineIsJoin(args);
  }

  /** Standard output and standard error, as the text written so far. */
  datatype Console = Console(stdout: string, stderr: string)

  /** `print(args...)`: the line and a newline on standard output. */
  method Print(c: Console, args: seq<Value>) returns (d: Console)
    requires |args| > 0
    ensures d.stdout == c.stdout + Line(args) + "\n" && d.stderr == c.stderr
  {
    var out := WriteArgs(c.stdout, args);
    d := c.(stdout := out + "\n");
  }

  /** `printnl(args...)`: the line alone on standard output. */
  method PrintNl(c: Console, args: seq<Value>) returns (d: Console)
    requires |args| > 0
    ensures d.stdout == c.stdout + Line(args) && d.stderr == c.stderr
  {
    var out := WriteArgs(c.stdout, args);
    d := c.(stdout := out);
  }

  /** `eprint(args...)`: the line and a newline on standard error. */
  method EPrint(c: Console, args: seq<Value>) returns (d: Console)
    requires |args| > 0
    ensures d.stderr == c.stderr + Line(args) + "\n" && d.stdout == c.stdout
  {
    var out := WriteArgs(c.stderr, args);
    d := c.(stderr := out + "\n");
  }

  /** `eprintnl(args...)`: the line alone on standard error. */
  method EPrintNl(c: Console, args: seq<Value>) returns (d: Console)
    requires |args| > 0
    ensures d.stderr == c.stderr + Line(args) && d.stdout == c.stdout
  {
    var out := WriteArgs(c.stderr, args);
    d := c.(stderr := out);
  }

  /** `to_string(args...)`: the line, written into a fresh string stream. */
  method ToString(args: seq<Value>) returns (s: string)
    requires |args| > 0
    ensures s == Line(args)
  {
    s := WriteArgs("", args);
  }

  /** The line is the arguments' renderings joined by single spaces. */
  lemma LineIsJoin(args: seq<Value>)
    requires |args| > 0
    ensures Line(args) == Join(Parts(args), " ")
  {
    JoinIsLeadingThenPrefixed(Parts(args), " ");
    PartsDrop(args);
  }

  lemma PartsDrop(es: seq<Value>)
    requires |es| > 0
    ensures Parts(es)[1..] == Parts(es[1..])
  {
    var l, r := Parts(es)[1..], Parts(es[1..]);
    assert |l| == |r|;
    forall i | 0 <= i < |l|
      ensures l[i] == r[i]
    {
      assert es[1..][i] == es[i + 1];
    }
  }

  /** One argument prints alone. */
  lemma LineOfOne(v: Value)
    ensures Line([v]) == Render(v)
  {
    assert Parts([v][1..]) == [];
  }

  lemma PartsSnoc(es: seq<Value>, v: Value)
    ensures Parts(es + [v]) == Parts(es) + [Render(v)]
  {
    assert (es + [v])[..|es|] == es;
  }

  /** Each further argument adds a space and itself. */
  lemma LineGrows(args: seq<Value>, v: Value)
    requires |args| > 0
    ensures Line(args + [v]) == Line(args) + " " + Render(v)
  {
    var longer := args + [v];
    assert longer[0] == args[0];
    assert longer[1..] == args[1..] + [v];
    PartsSnoc(args[1..], v);
    PrefixedSnoc(Parts(args[1..]), Render(v), " ");
  }
}
