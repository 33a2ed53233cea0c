/** What expansion means: literal text is kept, and each reference is replaced by the value it names. */
module EnvTemplates {
  import opened Wrappers
  import opened EnvParser

  /** A value as its author thinks of it. */
  datatype Piece =
    | Text(text: string)
    | Variable(name: string, default: Option<string>)

  predicate IsName(name: string) {
    name != "" && IsNameStart(name[0]) && forall i :: 0 <= i < |name| ==> IsNameChar(name[i])
  }

  function DefaultText(default: Option<string>): string {
    match default
    case None => "}"
    case Some(text) => ":-" + text + "}"
  }

  function PieceText(piece: Piece): string {
    match piece
    case Text(text) => text
    case Variable(name, default) => "${" + (name + DefaultText(default))
  }

  function TemplateText(pieces: seq<Piece>): string {
    if pieces == [] then "" else PieceText(pieces[0]) + TemplateText(pieces[1..])
  }

  /** A literal text in which, given what follows, no reference starts; or a proper reference. */
  ghost predicate WritablePiece(piece: Piece, rest: string) {
    match piece
    case Text(text) => forall k :: 0 <= k < |text| ==> ReferenceAt(text + rest, k).None?
    case Variable(name, default) => IsName(name) && (default.Some? ==> '}' !in default.value)
  }

  ghost predicate WritableTemplate(pieces: seq<Piece>) {
    pieces != [] ==> WritablePiece(pieces[0], TemplateText(pieces[1..])) && WritableTemplate(pieces[1..])
  }

  /**
   A name defined earlier in the file has that value, even over the environment; a bare key has none,
   and hides the environment all the same. What has no value has its default, or is empty.
   */
  function Meaning(piece: Piece, defined: map<string, Option<string>>, environ: map<string, string>): string {
    match piece
    case Text(text) => text
    case Variable(name, default) =>
      if name in defined && defined[name].Some? then defined[name].value
      else if name !in defined && name in environ then environ[name]
      else if default.Some? then default.value
      else ""
  }

  function TemplateMeaning(pieces: seq<Piece>, defined: map<string, Option<string>>, environ: map<string, string>): string {
    if pieces == [] then ""
    else Meaning(pieces[0], defined, environ) + TemplateMeaning(pieces[1..], defined, environ)
  }

  // ---------------------------------------------------------------- reading one reference

  lemma SpelledAt(text: string, i: nat, a: string, b: string)
    requires SpellsAt(text, i, a + b)
    ensures SpellsAt(text, i, a) && SpellsAt(text, i + |a|, b)
  {
    assert text[i..i + |a + b|][..|a|] == text[i..i + |a|];
    assert text[i..i + |a + b|][|a|..] == text[i + |a|..i + |a + b|];
    assert (a + b)[..|a|] == a && (a + b)[|a|..] == b;
  }

  lemma SpelledChar(text: string, i: nat, word: string, k: nat)
    requires SpellsAt(text, i, word) && k < |word|
    ensures text[i + k] == word[k]
  {
    assert text[i..i + |word|][k] == text[i + k];
  }

  lemma {:induction false} NameEndIs(text: string, i: nat, end: nat)
    requires i <= end < |text| && !IsNameChar(text[end])
    requires forall k :: i <= k < end ==> IsNameChar(text[k])
    ensures NameEnd(text, i) == end
    decreases end - i
  {
    if i < end {
      NameEndIs(text, i + 1, end);
    }
  }

  lemma FindsFirst(text: string, c: char, i: nat, at: nat)
    requires i <= at < |text| && text[at] == c && forall k :: i <= k < at ==> text[k] != c
    ensures Find(text, c, i) == at
  {
  }

  /** The name of a written reference is read up to its default or its end. */
  lemma NameReads(text: string, i: nat, name: string, default: Option<string>)
    requires IsName(name) && SpellsAt(text, i, name + DefaultText(default))
    ensures NameEnd(text, i) == i + |name| && text[i..i + |name|] == name
    ensures SpellsAt(text, i + |name|, DefaultText(default)) && text[i] == name[0]
  {
    SpelledAt(text, i, name, DefaultText(default));
    forall k | 0 <= k < |name| ensures text[i + k] == name[k] {
      SpelledChar(text, i, name, k);
    }
    SpelledChar(text, i + |name|, DefaultText(default), 0);
    NameEndIs(text, i, i + |name|);
  }

  lemma DefaultReads(text: string, i: nat, default: string)
    requires SpellsAt(text, i, ":-" + default + "}") && '}' !in default
    ensures SpellsAt(text, i, ":-") && Find(text, '}', i + 2) == i + 2 + |default|
    ensures i + 2 + |default| < |text| && text[i + 2..i + 2 + |default|] == default
    ensures !SpellsAt(text, i, "}")
  {
    SpelledAt(text, i, ":-" + default, "}");
    SpelledAt(text, i, ":-", default);
    SpelledChar(text, i, ":-", 0);
    SpelledChar(text, i + 2 + |default|, "}", 0);
    forall k | 0 <= k < |default| ensures text[i + 2 + k] == default[k] {
      SpelledChar(text, i + 2, default, k);
    }
    FindsFirst(text, '}', i + 2, i + 2 + |default|);
  }

  /** A reference ends where its name does, or behind its default. */
  lemma ReferenceIs(text: string, i: nat, name: string, default: Option<string>, end: nat)
    requires SpellsAt(text, i, "${") && i + 2 <= end < |text|
    requires IsNameStart(text[i + 2]) && NameEnd(text, i + 2) == end && text[i + 2..end] == name
    requires default.None? ==> SpellsAt(text, end, "}")
    requires default.Some? ==> !SpellsAt(text, end, "}") && SpellsAt(text, end, ":-") && end + 2 <= |text|
    requires default.Some? ==> var close := Find(text, '}', end + 2); close < |text| && text[end + 2..close] == default.value
    ensures ReferenceAt(text, i) ==
            Some(Reference(name, default, if default.None? then end + 1 else Find(text, '}', end + 2) + 1))
  {
    hide SpellsAt, NameEnd, Find, IsNameStart;
  }

  lemma ReferenceReads(text: string, i: nat, name: string, default: Option<string>)
    requires IsName(name) && (default.Some? ==> '}' !in default.value)
    requires SpellsAt(text, i, "${" + (name + DefaultText(default)))
    ensures ReferenceAt(text, i) == Some(Reference(name, default, i + 2 + |name| + |DefaultText(default)|))
  {
    hide *;
    SpelledAt(text, i, "${", name + DefaultText(default));
    NameReads(text, i + 2, name, default);
    NameStarts(name);
    var end := i + 2 + |name|;
    DefaultStands(text, end, default);
    ReferenceIs(text, i, name, default, end);
  }

  lemma DefaultStands(text: string, end: nat, default: Option<string>)
    requires SpellsAt(text, end, DefaultText(default)) && (default.Some? ==> '}' !in default.value)
    ensures end < |text|
    ensures default.None? ==> SpellsAt(text, end, "}") && |DefaultText(default)| == 1
    ensures default.Some? ==> !SpellsAt(text, end, "}") && SpellsAt(text, end, ":-") && end + 2 <= |text|
    ensures default.Some? ==> var close := Find(text, '}', end + 2);
      close < |text| && text[end + 2..close] == default.value && end + |DefaultText(default)| == close + 1
  {
    hide Find, SpellsAt;
    SpelledChar(text, end, DefaultText(default), 0);
    InBounds(text, end, DefaultText(default));
    if default.Some? {
      DefaultReads(text, end, default.value);
    }
  }

  lemma InBounds(text: string, i: nat, word: string)
    requires SpellsAt(text, i, word)
    ensures i + |word| <= |text|
  {
  }

  lemma NameStarts(name: string)
    requires IsName(name)
    ensures name != "" && IsNameStart(name[0])
  {
  }

  // ---------------------------------------------------------------- a reference is local

  lemma SpellsShift(value: string, i: nat, k: nat, word: string)
    requires i <= |value|
    ensures SpellsAt(value[i..], k, word) <==> SpellsAt(value, i + k, word)
  {
    if i + k + |word| <= |value| {
      assert value[i..][k..k + |word|] == value[i + k..i + k + |word|];
    }
  }

  lemma {:induction false} NameEndShift(value: string, i: nat, k: nat)
    requires i + k <= |value|
    ensures NameEnd(value, i + k) == i + NameEnd(value[i..], k)
    decreases |value| - k
  {
    if i + k < |value| && IsNameChar(value[i + k]) {
      NameEndShift(value, i, k + 1);
    }
  }

  lemma {:induction false} FindShift(value: string, c: char, i: nat, k: nat)
    requires i + k <= |value|
    ensures Find(value, c, i + k) == i + Find(value[i..], c, k)
    decreases |value| - k
  {
    if i + k < |value| && value[i + k] != c {
      FindShift(value, c, i, k + 1);
    }
  }

  /** Whether a reference starts at a place is decided by what stands from there on. */
  lemma ReferenceShift(value: string, i: nat, k: nat)
    requires i + k < |value|
    ensures ReferenceAt(value[i..], k).None? <==> ReferenceAt(value, i + k).None?
  {
    hide NameEnd, Find, SpellsAt;
    SpellsShift(value, i, k, "${");
    if SpellsAt(value, i + k, "${") {
      InBounds(value, i + k, "${");
      NameEndShift(value, i, k + 2);
      var end := NameEnd(value[i..], k + 2);
      SpellsShift(value, i, end, "}");
      SpellsShift(value, i, end, ":-");
      if SpellsAt(value, i + end, ":-") {
        InBounds(value, i + end, ":-");
        FindShift(value, '}', i, end + 2);
      }
    }
  }

  // ---------------------------------------------------------------- expanding a template

  lemma CharIsKept(value: string, i: nat, defined: map<string, Option<string>>, environ: map<string, string>)
    requires i < |value| && ReferenceAt(value, i).None?
    ensures ExpandFrom(value, i, defined, environ) == [value[i]] + ExpandFrom(value, i + 1, defined, environ)
  {
    hide Lookup, ReferenceAt;
  }

  lemma ReferenceExpands(value: string, i: nat, reference: Reference, defined: map<string, Option<string>>,
                         environ: map<string, string>)
    requires i < |value| && ReferenceAt(value, i) == Some(reference)
    ensures ExpandFrom(value, i, defined, environ) ==
            Lookup(reference, defined, environ) + ExpandFrom(value, reference.end, defined, environ)
  {
    hide Lookup, ReferenceAt;
  }

  /** Text in which no reference starts is kept. */
  lemma {:induction false} TextIsKept(value: string, i: nat, n: nat, defined: map<string, Option<string>>,
                                      environ: map<string, string>)
    requires i + n <= |value| && forall k :: i <= k < i + n ==> ReferenceAt(value, k).None?
    ensures ExpandFrom(value, i, defined, environ) == value[i..i + n] + ExpandFrom(value, i + n, defined, environ)
    decreases n
  {
    hide ExpandFrom, ReferenceAt;
    var rest := ExpandFrom(value, i + n, defined, environ);
    if n == 0 {
      assert value[i..i] + rest == rest;
    } else {
      CharIsKept(value, i, defined, environ);
      TextIsKept(value, i + 1, n - 1, defined, environ);
      assert value[i..i + n] == [value[i]] + value[i + 1..i + n];
      Prepend([value[i]], value[i + 1..i + n], rest);
    }
  }

  lemma Prepend(a: string, b: string, c: string)
    ensures a + (b + c) == (a + b) + c
  {
  }

  lemma VariableExpands(value: string, i: nat, name: string, default: Option<string>, defined: map<string, Option<string>>,
                        environ: map<string, string>)
    requires IsName(name) && (default.Some? ==> '}' !in default.value)
    requires SpellsAt(value, i, "${" + (name + DefaultText(default)))
    ensures ExpandFrom(value, i, defined, environ) ==
            Meaning(Variable(name, default), defined, environ) +
            ExpandFrom(value, i + 2 + |name| + |DefaultText(default)|, defined, environ)
  {
    hide *;
    InBounds(value, i, "${" + (name + DefaultText(default)));
    ReferenceReads(value, i, name, default);
    var reference := Reference(name, default, i + 2 + |name| + |DefaultText(default)|);
    ReferenceExpands(value, i, reference, defined, environ);
    LookupMeans(reference, defined, environ);
  }

  lemma LookupMeans(reference: Reference, defined: map<string, Option<string>>, environ: map<string, string>)
    ensures Lookup(reference, defined, environ) == Meaning(Variable(reference.name, reference.default), defined, environ)
  {
  }

  lemma TextExpands(value: string, i: nat, text: string, rest: string, defined: map<string, Option<string>>,
                    environ: map<string, string>)
    requires i <= |value| && value[i..] == text + rest
    requires forall k :: 0 <= k < |text| ==> ReferenceAt(text + rest, k).None?
    ensures ExpandFrom(value, i, defined, environ) == text + ExpandFrom(value, i + |text|, defined, environ)
  {
    hide ReferenceAt, ExpandFrom;
    forall k | i <= k < i + |text| ensures ReferenceAt(value, k).None? {
      ReferenceShift(value, i, k - i);
    }
    TextIsKept(value, i, |text|, defined, environ);
    assert value[i..i + |text|] == text by {
      assert value[i..][..|text|] == (text + rest)[..|text|] == text;
    }
  }

  lemma PieceExpands(value: string, i: nat, piece: Piece, rest: string, defined: map<string, Option<string>>,
                     environ: map<string, string>)
    requires WritablePiece(piece, rest) && i <= |value| && value[i..] == PieceText(piece) + rest
    ensures ExpandFrom(value, i, defined, environ) ==
            Meaning(piece, defined, environ) + ExpandFrom(value, i + |PieceText(piece)|, defined, environ)
  {
    hide ExpandFrom, SpellsAt, Meaning, IsName, DefaultText, ReferenceAt;
    match piece
    case Text(text) =>
      TextExpands(value, i, text, rest, defined, environ);
      TextMeansItself(text, defined, environ);
    case Variable(name, default) =>
      StandsAt(value, i, PieceText(piece), rest);
      VariableExpands(value, i, name, default, defined, environ);
  }

  lemma StandsAt(value: string, i: nat, own: string, rest: string)
    requires i <= |value| && value[i..] == own + rest
    ensures SpellsAt(value, i, own) && value[i + |own|..] == rest
  {
    assert value[i..][..|own|] == own;
    assert value[i..][|own|..] == value[i + |own|..] == rest;
  }

  lemma TextMeansItself(text: string, defined: map<string, Option<string>>, environ: map<string, string>)
    ensures Meaning(Text(text), defined, environ) == text
  {
  }

  lemma {:induction false} PiecesExpand(value: string, i: nat, pieces: seq<Piece>, defined: map<string, Option<string>>,
                                        environ: map<string, string>)
    requires WritableTemplate(pieces) && i <= |value| && value[i..] == TemplateText(pieces)
    ensures ExpandFrom(value, i, defined, environ) == TemplateMeaning(pieces, defined, environ)
    decreases |pieces|
  {
    hide ExpandFrom, Meaning, PieceText, WritablePiece;
    if pieces == [] {
      assert i == |value|;
      ExpandsNothing(value, defined, environ);
    } else {
      var own, rest := PieceText(pieces[0]), TemplateText(pieces[1..]);
      StandsAt(value, i, own, rest);
      PieceExpands(value, i, pieces[0], rest, defined, environ);
      PiecesExpand(value, i + |own|, pieces[1..], defined, environ);
    }
  }

  lemma ExpandsNothing(value: string, defined: map<string, Option<string>>, environ: map<string, string>)
    ensures ExpandFrom(value, |value|, defined, environ) == ""
  {
  }

  /** A template expands to its literal text with the meaning of each reference put in its place. */
  lemma ExpandOfTemplate(pieces: seq<Piece>, defined: map<string, Option<string>>, environ: map<string, string>)
    requires WritableTemplate(pieces)
    ensures Expand(TemplateText(pieces), defined, environ) == TemplateMeaning(pieces, defined, environ)
  {
    var value := TemplateText(pieces);
    assert value[0..] == value;
    PiecesExpand(value, 0, pieces, defined, environ);
  }

  /** No part of the value reads as a `${NAME}` or `${NAME:-default}` reference. */
  ghost predicate NoReference(value: string) {
    forall i :: 0 <= i < |value| ==> ReferenceAt(value, i).None?
  }

  lemma ExpandsToItself(value: string, defined: map<string, Option<string>>, environ: map<string, string>)
    requires NoReference(value)
    ensures Expand(value, defined, environ) == value
  {
    hide ReferenceAt, ExpandFrom;
    TextIsKept(value, 0, |value|, defined, environ);
    ExpandsNothing(value, defined, environ);
    assert value[0..|value|] + "" == value;
  }

  // ---------------------------------------------------------------- when a default is taken

  lemma OneVariable(name: string, default: Option<string>, defined: map<string, Option<string>>, environ: map<string, string>)
    requires IsName(name) && (default.Some? ==> '}' !in default.value)
    ensures Expand(PieceText(Variable(name, default)), defined, environ) == Meaning(Variable(name, default), defined, environ)
  {
    hide PieceText, Meaning, Expand;
    var pieces := [Variable(name, default)];
    assert pieces[1..] == [];
    assert TemplateText(pieces) == PieceText(pieces[0]) + "" == PieceText(pieces[0]);
    assert TemplateMeaning(pieces, defined, environ) == Meaning(pieces[0], defined, environ) + "";
    ExpandOfTemplate(pieces, defined, environ);
  }

  /**
   A reference to a variable of the environment takes its default all the same exactly when the file
   defines the name without a value, as a bare key does, or with that very text.
   */
  lemma DefaultDespiteEnvironment(name: string, default: Option<string>, defined: map<string, Option<string>>,
                                  environ: map<string, string>)
    requires IsName(name) && (default.Some? ==> '}' !in default.value)
    requires name in environ && environ[name] != default.GetOr("")
    ensures Expand(PieceText(Variable(name, default)), defined, environ) == default.GetOr("") <==>
            name in defined && (defined[name].None? || defined[name].value == default.GetOr(""))
  {
    hide PieceText, Expand, IsName;
    OneVariable(name, default, defined, environ);
  }
}
