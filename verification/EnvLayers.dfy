/**
 What loading written layers means, without the loader and the parser: where each reference of each
 layer takes its value from, and what every variable ends up as.
 */
module EnvLayers {
  import opened Wrappers
  import opened EnvParser
  import opened EnvTemplates
  import opened EnvLines
  import opened EnvRoundTrip
  import opened EnvLoader

  // ---------------------------------------------------------------- layers as written

  /** A line of a layer, and the text and references of its value where it is expanded. */
  datatype Item = Item(line: Line, pieces: seq<Piece>) {
    predicate Names(name: string) {
      line.Entry? && line.key == name
    }

    predicate Expands() {
      line.Entry? && line.value.Some? && line.value.value.style != Single
    }
  }

  /** The lines of a file, unless it is absent. */
  type File = Option<seq<Item>>

  ghost predicate WellWritten(item: Item) {
    Writable(item.line) &&
    (item.Expands() ==> item.line.value.value.text == TemplateText(item.pieces) && WritableTemplate(item.pieces))
  }

  ghost predicate AllWellWritten(files: seq<File>) {
    forall i, k :: 0 <= i < |files| && files[i].Some? && 0 <= k < |files[i].value| ==> WellWritten(files[i].value[k])
  }

  function LinesOf(items: seq<Item>): (lines: seq<Line>)
    ensures |lines| == |items| && forall k :: 0 <= k < |items| ==> lines[k] == items[k].line
  {
    seq(|items|, k requires 0 <= k < |items| => items[k].line)
  }

  function LayersOf(files: seq<File>): (layers: seq<Layer>)
    ensures |layers| == |files|
    ensures forall i :: 0 <= i < |files| ==>
      layers[i] == if files[i].Some? then Some(Render(LinesOf(files[i].value))) else None
  {
    seq(|files|, i requires 0 <= i < |files| => if files[i].Some? then Some(Render(LinesOf(files[i].value))) else None)
  }

  // ---------------------------------------------------------------- what they mean

  /** The last of the first `n` lines that names a variable. */
  function LastMention(items: seq<Item>, n: nat, name: string): (k: Option<nat>)
    requires n <= |items|
    ensures k.Some? ==> k.value < n && items[k.value].Names(name)
  {
    if n == 0 then None
    else if items[n - 1].Names(name) then Some(n - 1)
    else LastMention(items, n - 1, name)
  }

  function MentionIn(file: File, name: string): (k: Option<nat>)
    ensures k.Some? ==> file.Some? && k.value < |file.value| && file.value[k.value].Names(name)
  {
    if file.Some? then LastMention(file.value, |file.value|, name) else None
  }

  /** The last of the first `n` files that names a variable. */
  function LastFile(files: seq<File>, n: nat, name: string): (i: Option<nat>)
    requires n <= |files|
    ensures i.Some? ==> i.value < n && MentionIn(files[i.value], name).Some?
  {
    if n == 0 then None
    else if MentionIn(files[n - 1], name).Some? then Some(n - 1)
    else LastFile(files, n - 1, name)
  }

  /**
   What a piece of line `k` of file `i` stands for. A name set by an earlier line of the file has that
   value, or its default behind a bare key. Otherwise the environment decides, then the last earlier
   file that names it, a bare key as the empty text, and at last the default.
   */
  function PieceMeans(files: seq<File>, i: nat, k: nat, piece: Piece, environ: Variables): string
    requires i < |files| && files[i].Some? && k < |files[i].value|
    decreases i, k, 0
  {
    match piece
    case Text(text) => text
    case Variable(name, default) =>
      match LastMention(files[i].value, k, name)
      case Some(m) =>
        if files[i].value[m].line.value.None? then default.GetOr("") else LineMeans(files, i, m, environ)
      case None =>
        if name in environ then environ[name]
        else
          match LastFile(files, i, name)
          case Some(j) => LineMeans(files, j, MentionIn(files[j], name).value, environ)
          case None => default.GetOr("")
  }

  function PiecesMean(files: seq<File>, i: nat, k: nat, pieces: seq<Piece>, environ: Variables): string
    requires i < |files| && files[i].Some? && k < |files[i].value|
    decreases i, k, 1, |pieces|
  {
    if pieces == [] then ""
    else PieceMeans(files, i, k, pieces[0], environ) + PiecesMean(files, i, k, pieces[1..], environ)
  }

  /** What line `k` of file `i` sets its variable to; a bare key as the empty text. */
  function LineMeans(files: seq<File>, i: nat, k: nat, environ: Variables): string
    requires i < |files| && files[i].Some? && k < |files[i].value| && files[i].value[k].line.Entry?
    decreases i, k, 2
  {
    var item := files[i].value[k];
    if item.line.value.None? then ""
    else if item.line.value.value.style == Single then item.line.value.value.text
    else PiecesMean(files, i, k, item.pieces, environ)
  }

  // ---------------------------------------------------------------- one file

  /** A context gives a name the value of the environment, or else of the files before `i`. */
  ghost predicate ContextMeans(files: seq<File>, i: nat, context: Variables, environ: Variables, name: string)
    requires i <= |files|
  {
    if name in environ then name in context && context[name] == environ[name]
    else
      match LastFile(files, i, name)
      case Some(j) => name in context && context[name] == LineMeans(files, j, MentionIn(files[j], name).value, environ)
      case None => name !in context
  }

  /** The variables set by the first `k` lines of file `i`. */
  ghost predicate SetMeans(files: seq<File>, i: nat, k: nat, values: map<string, Option<string>>, environ: Variables, name: string)
    requires i < |files| && files[i].Some? && k <= |files[i].value|
  {
    match LastMention(files[i].value, k, name)
    case Some(m) =>
      name in values &&
      values[name] == if files[i].value[m].line.value.None? then None else Some(LineMeans(files, i, m, environ))
    case None => name !in values
  }

  ghost predicate AllInContext(files: seq<File>, i: nat, context: Variables, environ: Variables)
    requires i <= |files|
  {
    forall name :: ContextMeans(files, i, context, environ, name)
  }

  ghost predicate AllSet(files: seq<File>, i: nat, k: nat, values: map<string, Option<string>>, environ: Variables)
    requires i < |files| && files[i].Some? && k <= |files[i].value|
  {
    forall name :: SetMeans(files, i, k, values, environ, name)
  }

  lemma PieceAsMeant(files: seq<File>, i: nat, k: nat, piece: Piece, values: map<string, Option<string>>,
                     context: Variables, environ: Variables)
    requires i < |files| && files[i].Some? && k < |files[i].value|
    requires piece.Variable? ==> SetMeans(files, i, k, values, environ, piece.name)
    requires piece.Variable? ==> ContextMeans(files, i, context, environ, piece.name)
    ensures Meaning(piece, values, context) == PieceMeans(files, i, k, piece, environ)
  {
    hide LineMeans;
  }

  lemma {:induction false} PiecesAsMeant(files: seq<File>, i: nat, k: nat, pieces: seq<Piece>, values: map<string, Option<string>>,
                                         context: Variables, environ: Variables)
    requires i < |files| && files[i].Some? && k < |files[i].value|
    requires AllSet(files, i, k, values, environ) && AllInContext(files, i, context, environ)
    ensures TemplateMeaning(pieces, values, context) == PiecesMean(files, i, k, pieces, environ)
    decreases |pieces|
  {
    hide Meaning, PieceMeans, SetMeans, ContextMeans;
    if pieces != [] {
      assert pieces[0].Variable? ==> SetMeans(files, i, k, values, environ, pieces[0].name);
      PieceAsMeant(files, i, k, pieces[0], values, context, environ);
      PiecesAsMeant(files, i, k, pieces[1..], values, context, environ);
    }
  }

  /** One more line. */
  lemma LineAsMeant(files: seq<File>, i: nat, k: nat, values: EnvValues, context: Variables, environ: Variables)
    requires AllWellWritten(files) && i < |files| && files[i].Some? && k < |files[i].value|
    requires AllSet(files, i, k, values.values, environ) && AllInContext(files, i, context, environ)
    ensures AllSet(files, i, k + 1, Apply(values, files[i].value[k].line, context).values, environ)
  {
    hide ContextMeans, LineMeans, WritableTemplate, Writable, Expand, Item.Expands;
    var item := files[i].value[k];
    var after := Apply(values, item.line, context);
    if item.line.Entry? && item.line.value.Some? {
      ValueAsMeant(files, i, k, values, context, environ);
    }
    var next := k + 1;
    forall name ensures SetMeans(files, i, next, after.values, environ, name) {
      assert SetMeans(files, i, k, values.values, environ, name);
    }
  }

  lemma ValueAsMeant(files: seq<File>, i: nat, k: nat, values: EnvValues, context: Variables, environ: Variables)
    requires AllWellWritten(files) && i < |files| && files[i].Some? && k < |files[i].value|
    requires files[i].value[k].line.Entry? && files[i].value[k].line.value.Some?
    requires AllSet(files, i, k, values.values, environ) && AllInContext(files, i, context, environ)
    ensures SetTo(files[i].value[k].line.value.value, values, context) == LineMeans(files, i, k, environ)
  {
    hide SetMeans, ContextMeans, Expand, TemplateText, WritableTemplate, Writable, PiecesMean, TemplateMeaning;
    var item := files[i].value[k];
    assert WellWritten(item);
    if item.Expands() {
      ExpandOfTemplate(item.pieces, values.values, context);
      PiecesAsMeant(files, i, k, item.pieces, values.values, context, environ);
    }
  }

  lemma {:induction false} FileAsMeant(files: seq<File>, i: nat, k: nat, context: Variables, environ: Variables)
    requires AllWellWritten(files) && i < |files| && files[i].Some? && k <= |files[i].value|
    requires AllInContext(files, i, context, environ)
    ensures AllSet(files, i, k, AfterLines(LinesOf(files[i].value), k, context).values, environ)
  {
    hide ContextMeans, Apply, AllWellWritten, AllSet;
    if k == 0 {
      NothingSet(files, i, environ);
    } else {
      FileAsMeant(files, i, k - 1, context, environ);
      LineAsMeant(files, i, k - 1, AfterLines(LinesOf(files[i].value), k - 1, context), context, environ);
    }
  }

  lemma NothingSet(files: seq<File>, i: nat, environ: Variables)
    requires i < |files| && files[i].Some?
    ensures AllSet(files, i, 0, map[], environ)
  {
    hide LineMeans;
  }

  // ---------------------------------------------------------------- all files

  ghost predicate MergedMeans(files: seq<File>, n: nat, merged: map<string, Option<string>>, environ: Variables, name: string)
    requires n <= |files|
  {
    match LastFile(files, n, name)
    case Some(j) => name in merged && ValueOf(merged[name]) == LineMeans(files, j, MentionIn(files[j], name).value, environ)
    case None => name !in merged
  }

  ghost predicate AllMerged(files: seq<File>, n: nat, merged: map<string, Option<string>>, environ: Variables)
    requires n <= |files|
  {
    forall name :: MergedMeans(files, n, merged, environ, name)
  }

  lemma ContextAsMeant(files: seq<File>, n: nat, merged: map<string, Option<string>>, environ: Variables, name: string)
    requires n <= |files| && MergedMeans(files, n, merged, environ, name)
    ensures ContextMeans(files, n, Context(merged, environ), environ, name)
  {
    hide LineMeans;
  }

  lemma MergeAsMeant(files: seq<File>, n: nat, merged: map<string, Option<string>>, values: map<string, Option<string>>,
                     environ: Variables, name: string)
    requires n < |files| && files[n].Some? && MergedMeans(files, n, merged, environ, name)
    requires SetMeans(files, n, |files[n].value|, values, environ, name)
    ensures MergedMeans(files, n + 1, merged + values, environ, name)
  {
    hide PiecesMean;
  }

  lemma {:induction false} LayersAsMeant(files: seq<File>, n: nat, environ: Variables)
    requires AllWellWritten(files) && n <= |files|
    ensures Merged(LayersOf(files), n, environ).Ok?
    ensures AllMerged(files, n, Merged(LayersOf(files), n, environ).value, environ)
  {
    hide *;
    if n == 0 {
      MergedNothing(LayersOf(files), environ);
      NothingMerged(files, environ);
    } else {
      LayersAsMeant(files, n - 1, environ);
      LayerAsMeant(files, n - 1, environ);
    }
  }

  lemma NothingMerged(files: seq<File>, environ: Variables)
    ensures AllMerged(files, 0, map[], environ)
  {
    hide LineMeans;
  }

  lemma LayerAsMeant(files: seq<File>, n: nat, environ: Variables)
    requires AllWellWritten(files) && n < |files| && Merged(LayersOf(files), n, environ).Ok?
    requires AllMerged(files, n, Merged(LayersOf(files), n, environ).value, environ)
    ensures Merged(LayersOf(files), n + 1, environ).Ok?
    ensures AllMerged(files, n + 1, Merged(LayersOf(files), n + 1, environ).value, environ)
  {
    hide Context, Merged, Parse, MergedMeans, SetMeans, ContextMeans, AfterLines, Render;
    var merged, next := Merged(LayersOf(files), n, environ).value, n + 1;
    MergedLayer(LayersOf(files), n, environ);
    if files[n].Some? {
      var context := Context(merged, environ);
      forall name ensures ContextMeans(files, n, context, environ, name) {
        ContextAsMeant(files, n, merged, environ, name);
      }
      var lines := LinesOf(files[n].value);
      assert WritableFile(lines);
      ParseOfRender(lines, context);
      FileAsMeant(files, n, |lines|, context, environ);
      forall name
        ensures MergedMeans(files, next, merged + AfterLines(lines, |lines|, context).values, environ, name)
      {
        MergeAsMeant(files, n, merged, AfterLines(lines, |lines|, context).values, environ, name);
      }
    } else {
      forall name ensures MergedMeans(files, next, merged, environ, name) {
        AbsentFile(files, n, merged, environ, name);
      }
    }
  }

  lemma AbsentFile(files: seq<File>, n: nat, merged: map<string, Option<string>>, environ: Variables, name: string)
    requires n < |files| && files[n].None? && MergedMeans(files, n, merged, environ, name)
    ensures MergedMeans(files, n + 1, merged, environ, name)
  {
    hide LineMeans;
  }

  /**
   Loading written files sets exactly the variables that some file names and the environment lacks, each
   to what the last line naming it in the last such file means; every other variable stays as it was.
   */
  lemma LoadAsWritten(files: seq<File>, environ: Variables, name: string)
    requires AllWellWritten(files)
    ensures var reported, after := Reported(LayersOf(files), environ), Loaded(LayersOf(files), environ);
      && reported.Ok?
      && (name in reported.value <==> name !in environ && LastFile(files, |files|, name).Some?)
      && (name in after <==> name in environ || LastFile(files, |files|, name).Some?)
      && (name in environ ==> after[name] == environ[name])
      && (name in reported.value ==>
            var i := LastFile(files, |files|, name).value;
            reported.value[name] == after[name] == LineMeans(files, i, MentionIn(files[i], name).value, environ))
  {
    hide Merged, LineMeans;
    LayersAsMeant(files, |files|, environ);
    assert MergedMeans(files, |files|, Merged(LayersOf(files), |files|, environ).value, environ, name);
  }
}
