/**
 * The translator: `translateLanguage` (resolve, scan, reduce, choose the output
 * kind) as a specification function and the class `I18n`, whose private state
 * is the catalog of the language chosen at construction.
 */
module Translator {
  import opened Wrappers
  import opened Catalog
  import opened Placeholder

  /**
   * The injected `formatJSX`: the default one throws; a supplied one maps the
   * segment list to rich content, `None` standing for a falsy return value.
   */
  datatype Composer<C> = Default | Custom(format: seq<Segment> -> Option<C>)

  /** What a translation call evaluates to: a string, the composer's content, or a thrown error. */
  datatype Outcome<C> = Plain(text: string) | Composed(content: C) | Thrown(message: string)

  /** The two diagnostics `translateLanguage` logs before returning `""`. */
  datatype Problem = KeyNotFound | NotString

  /** A translation's outcome together with the diagnostic it logged, if any. */
  datatype Report<C> = Report(result: Outcome<C>, logged: Option<Problem>)

  const FormatJSXMissing: string := "formatJSX not defined"

  /** `args.some((item) => typeof item === "object")`. */
  predicate HasObject(args: seq<Arg>): (b: bool)
    ensures !b ==> forall n: nat :: ArgAt(args, n).Str?
  {
    exists i :: 0 <= i < |args| && IsObject(args[i])
  }

  /** `this.formatJSX?.(segments) || ""`. */
  function Compose<C>(formatJSX: Composer<C>, segs: seq<Segment>): (r: Outcome<C>)
    ensures r.Thrown? <==> formatJSX.Default?
    ensures r.Plain? ==> r.text == ""
  {
    match formatJSX
    case Default => Thrown(FormatJSXMissing)
    case Custom(format) =>
      match format(segs)
      case Some(content) => Composed(content)
      case None => Plain("")
  }

  /** `translateLanguage(language, key, ...args)`. */
  function Translation<C>(language: Obj, key: string, args: seq<Arg>, formatJSX: Composer<C>): (r: Report<C>)
    ensures r.result.Thrown? ==> formatJSX.Default? && HasObject(args)
    ensures r.result.Composed? ==> formatJSX.Custom? && HasObject(args)
    ensures r.logged.Some? ==> r.result == Plain("")
  {
    match GetTemplate(language, key)
    case None => Report(Plain(""), Some(KeyNotFound))
    case Some(Node(_)) => Report(Plain(""), Some(NotString))
    case Some(Leaf(template)) =>
      var toks := Scan(template, 0);
      if |args| == 0 || |toks| == 0 then Report(Plain(template), None)
      else
        var segs := Segments(template, toks, args);
        if HasObject(args) then Report(Compose(formatJSX, segs), None)
        else Report(Plain(Join(segs)), None)
  }

  // ---------------------------------------------------------------------
  // Properties of a translation.
  // ---------------------------------------------------------------------

  /** A key whose first segment is not in the catalog yields `""` and logs that the key does not exist; it never throws. */
  lemma MissingFirstSegment<C>(language: Obj, key: string, args: seq<Arg>, formatJSX: Composer<C>)
    requires Lookup(language, Split(key)[0]).None?
    ensures Translation(language, key, args, formatJSX) == Report(Plain(""), Some(KeyNotFound))
  {
    ResolveMissingFirst(language, key);
  }

  /** A diagnostic is logged exactly when the key does not resolve to a string, and then the result is `""`. */
  lemma Fallbacks<C>(language: Obj, key: string, args: seq<Arg>, formatJSX: Composer<C>)
    ensures var r := Translation(language, key, args, formatJSX);
      && (r.logged.Some? <==> !(GetTemplate(language, key).Some? && GetTemplate(language, key).value.Leaf?))
      && (r.logged == Some(KeyNotFound) <==> GetTemplate(language, key).None?)
      && (r.logged.Some? ==> r.result == Plain(""))
  {
  }

  /** With no arguments, or with a template holding no `{digits}` token, the template is returned unchanged. */
  lemma TemplateUnchanged<C>(language: Obj, key: string, args: seq<Arg>, formatJSX: Composer<C>, template: string)
    requires GetTemplate(language, key) == Some(Leaf(template))
    requires args == [] || forall q :: 0 <= q < |template| ==> MatchAt(template, q).None?
    ensures Translation(language, key, args, formatJSX) == Report(Plain(template), None)
  {
    ScanEmptyIff(template, 0);
  }

  /**
   * Without rich or null arguments (and with at least one argument), the result is the
   * template with every token replaced by the text of the argument its digits name.
   */
  lemma ScalarTranslation<C>(language: Obj, key: string, args: seq<Arg>, formatJSX: Composer<C>, template: string)
    requires GetTemplate(language, key) == Some(Leaf(template))
    requires args != [] && !HasObject(args)
    ensures Translation(language, key, args, formatJSX) == Report(Plain(Render(template, args, 0)), None)
  {
    if Scan(template, 0) == [] {
      RenderNoMatch(template, args, 0);
    } else {
      SegmentsRender(template, args);
    }
  }

  /**
   * With a rich or null argument and a token in the template, the segment list goes to the
   * composer: the default one throws, and the only plain result is the `""` of a falsy return.
   */
  lemma RichTranslation<C>(language: Obj, key: string, args: seq<Arg>, formatJSX: Composer<C>, template: string)
    requires GetTemplate(language, key) == Some(Leaf(template))
    requires HasObject(args) && Scan(template, 0) != []
    ensures var r := Translation(language, key, args, formatJSX).result;
      && r == Compose(formatJSX, Segments(template, Scan(template, 0), args))
      && (formatJSX.Default? <==> r == Thrown(FormatJSXMissing))
      && (r.Plain? ==> r.text == "")
  {
  }

  /**
   * Without rich or null arguments every segment is a string: the list that is
   * joined never holds an element, so `[object Object]` is never written.
   */
  lemma ScalarSegmentsAreStrings(template: string, args: seq<Arg>)
    requires !HasObject(args)
    ensures var segs := Segments(template, Scan(template, 0), args);
      forall k :: 0 <= k < |segs| ==> segs[k].Str?
  {
    var toks := Scan(template, 0);
    if toks != [] {
      SegmentsAlternate(template, toks, args);
      InterleavePlain(template, toks, 0, args);
    }
  }

  /** A key that resolves to an object logs that the value is not a string and yields `""`. */
  lemma NodeKeyNotString<C>(language: Obj, path: seq<string>, o: Obj, args: seq<Arg>, formatJSX: Composer<C>)
    requires |path| >= 1
    requires forall i :: 0 <= i < |path| ==> DotFree(path[i])
    requires Descend(Node(language), path) == Some(Node(o))
    ensures Translation(language, JoinDots(path), args, formatJSX) == Report(Plain(""), Some(NotString))
  {
    ResolveNode(language, path, o);
  }

  /** The composer is needed only when an argument is an object: scalar-only translations never throw. */
  lemma ScalarNeverThrows<C>(language: Obj, key: string, args: seq<Arg>, formatJSX: Composer<C>)
    requires !HasObject(args)
    ensures Translation(language, key, args, formatJSX).result.Plain?
  {
  }

  /** `{1} {0}` with (a, b) gives "b a": tokens select by their digits, not their position. */
  lemma SwappedOrder<C>(language: Obj, key: string, formatJSX: Composer<C>, a: string, b: string)
    requires GetTemplate(language, key) == Some(Leaf("{1} {0}"))
    ensures Translation(language, key, [Scalar(a), Scalar(b)], formatJSX).result == Plain(b + " " + a)
  {
    var args := [Scalar(a), Scalar(b)];
    assert !HasObject(args);
    ScalarTranslation(language, key, args, formatJSX, "{1} {0}");
    RenderSwapped(a, b);
  }

  /** `{0} and {0}` with (x) gives "x and x": a token that recurs re-emits the same argument. */
  lemma RepeatedIndex<C>(language: Obj, key: string, formatJSX: Composer<C>, x: string)
    requires GetTemplate(language, key) == Some(Leaf("{0} and {0}"))
    ensures Translation(language, key, [Scalar(x)], formatJSX).result == Plain(x + " and " + x)
  {
    var args := [Scalar(x)];
    assert !HasObject(args);
    ScalarTranslation(language, key, args, formatJSX, "{0} and {0}");
    RenderRepeated(x);
  }

  /** `{5}` with a single scalar argument gives "": an index past the arguments is replaced by the empty string. */
  lemma OutOfRangeIndex<C>(language: Obj, key: string, formatJSX: Composer<C>, only: string)
    requires GetTemplate(language, key) == Some(Leaf("{5}"))
    ensures Translation(language, key, [Scalar(only)], formatJSX).result == Plain("")
  {
    var args := [Scalar(only)];
    assert !HasObject(args);
    ScalarTranslation(language, key, args, formatJSX, "{5}");
    RenderOutOfRange(args);
  }

  // ---------------------------------------------------------------------
  // The translator object.
  // ---------------------------------------------------------------------

  /** The message `I18n`'s constructor throws when the default language is absent. */
  function InitError(defaultLanguage: string): string
  {
    "i18n langs init error: default lang \"" + defaultLanguage + "\" not exist in input langs !!!"
  }

  class I18n<C> {
    const langs: map<string, Obj>
    const defaultLanguage: string
    const formatJSX: Composer<C>
    /** The catalog every `Translate` uses; set once, at construction. */
    var currentLanguage: Obj

    /** The private constructor on its successful path; `Create` performs its check. */
    constructor (langs: map<string, Obj>, defaultLanguage: string, formatJSX: Composer<C>)
      requires defaultLanguage in langs
      ensures this.langs == langs && this.defaultLanguage == defaultLanguage && this.formatJSX == formatJSX
      ensures currentLanguage == langs[defaultLanguage]
    {
      this.langs := langs;
      this.defaultLanguage := defaultLanguage;
      this.formatJSX := formatJSX;
      currentLanguage := langs[defaultLanguage];
    }

    /** `I18n.create`: fails exactly when `langs[defaultLanguage]` is missing, else selects that catalog. */
    static method Create(langs: map<string, Obj>, defaultLanguage: string, formatJSX: Composer<C>)
      returns (r: Result<I18n<C>, string>)
      ensures r.Failure? <==> defaultLanguage !in langs
      ensures r.Failure? ==> r.error == InitError(defaultLanguage)
      ensures r.Success? ==> && fresh(r.value)
                             && r.value.langs == langs && r.value.defaultLanguage == defaultLanguage
                             && r.value.formatJSX == formatJSX
                             && r.value.currentLanguage == langs[defaultLanguage]
    {
      if defaultLanguage !in langs {
        return Failure(InitError(defaultLanguage));
      }
      var t := new I18n(langs, defaultLanguage, formatJSX);
      return Success(t);
    }

    /** `translateLanguage`: resolve the key, take the fast path or run the reducer, then choose the output kind. */
    method TranslateLanguage(language: Obj, key: string, args: seq<Arg>) returns (r: Report<C>)
      ensures r == Translation(language, key, args, formatJSX)
    {
      var value := GetTemplate(language, key);
      if value.None? {
        return Report(Plain(""), Some(KeyNotFound));
      }
      if !value.value.Leaf? {
        return Report(Plain(""), Some(NotString));
      }
      var template := value.value.text;
      var matches := Scan(template, 0);
      if |args| == 0 || |matches| == 0 {
        return Report(Plain(template), None);
      }
      var data := BuildSegments(template, matches, args);
      if HasObject(args) {
        return Report(Compose(formatJSX, data), None);
      }
      return Report(Plain(Join(data)), None);
    }

    /** `translate`: `translateLanguage` against the current language. */
    method Translate(key: string, args: seq<Arg>) returns (r: Report<C>)
      ensures r == Translation(currentLanguage, key, args, formatJSX)
    {
      r := TranslateLanguage(currentLanguage, key, args);
    }
  }
}
