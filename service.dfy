/** The `Emeeuw` service of index.js: the message baseline fixed at
    construction, the template table `from` fills, the compile-once lookup
    `find`, and the composition of the outgoing message in `send`. */
module Service {
  import opened Results
  import opened JsValues
  import opened Paths
  import opened Discovery

  /** The MIME header every message carries. */
  const ContentType: Object := map["Content-type" := Str("text/html; charset=UTF-8")]

  /** The shared message baseline built from the constructor's options (an
      absent options argument is the empty object). */
  function Baseline(options: Object): Object
  {
    map[
      "headers" := Obj(ContentType),
      "track_opens" := if "open" in options then options["open"] else Bool(true),
      "track_clicks" := if "click" in options then options["click"] else Bool(true),
      "subject" := Get(options, "subject"),
      "from_email" := Get(options, "from"),
      "to" := Get(options, "to")]
  }

  /** Tracking is on unless the option is present; a present option is used
      as given, falsy or not. */
  lemma TrackingIsPresenceBased(options: Object)
    ensures "open" !in options ==> Baseline(options)["track_opens"] == Bool(true)
    ensures "open" in options ==> Baseline(options)["track_opens"] == options["open"]
    ensures "click" !in options ==> Baseline(options)["track_clicks"] == Bool(true)
    ensures "click" in options ==> Baseline(options)["track_clicks"] == options["click"]
    ensures Truthy(Baseline(options)["track_opens"]) <==> "open" !in options || Truthy(options["open"])
    ensures Truthy(Baseline(options)["track_clicks"]) <==> "click" !in options || Truthy(options["click"])
  {
  }

  /** What `find(name)` reports and the table it leaves: an unknown name is
      an error; an entry whose render function is set is returned as it is;
      otherwise the render function is stored BEFORE the markdown step, whose
      failure is reported with the render function left in place. */
  function Lookup(templates: map<string, Spec>, name: string, md: string -> Result<string>)
    : (Result<Spec>, map<string, Spec>)
  {
    if name !in templates then (Fail("Unknown template: " + name), templates)
    else
      var spec := templates[name];
      if spec.render.Some? then (Ok(spec), templates)
      else
        var fetched := spec.(render := Some(Renderer(spec.template)));
        match md(fetched.text)
        case Fail(e) => (Fail(e), templates[name := fetched])
        case Ok(html) =>
          var compiled := fetched.(markdown := Some(html));
          (Ok(compiled), templates[name := compiled])
  }

  /** The properties of a spec object that `merge` copies: the unset
      `render` and `markdown` are not own properties. */
  function SpecObject(spec: Spec): Object
  {
    var fields := map[
      "file" := Str(spec.file),
      "name" := Str(spec.name),
      "extension" := Str(spec.extension),
      "filename" := Str(spec.filename),
      "text" := Str(spec.text),
      "template" := Str(spec.template)];
    var rendered := if spec.render.Some? then fields["render" := Fn(spec.render.value.template)] else fields;
    if spec.markdown.Some? then rendered["markdown" := Str(spec.markdown.value)] else rendered
  }

  /** The normalisation of `to`: a string becomes one recipient object, and a
      non-array is wrapped into a one-element array. */
  function NormalizeTo(to: Value): Value
  {
    var recipient := if to.Str? then Obj(map["email" := to]) else to;
    if recipient.Arr? then recipient else Arr([recipient])
  }

  /** The caller's options object after `send` has filled in `text`, and, when
      no `html` was given, merged the spec in and stored the rendered html. */
  function FilledOptions(spec: Spec, options: Object, engine: (string, Object) -> string): Object
    requires spec.render.Some?
  {
    var withText := options["text" := if Truthy(Get(options, "text")) then options["text"] else Str(spec.text)];
    if Truthy(Get(withText, "html")) then withText
    else
      var data := Merge(withText, SpecObject(spec));
      data["html" := Str(engine(spec.render.value.template, data))]
  }

  /** The message `send` hands to the CSS-inlining step: a copy of the
      baseline overwritten by the filled options, with `to` normalised. */
  function Compose(baseline: Object, spec: Spec, options: Object, engine: (string, Object) -> string): Object
    requires spec.render.Some?
  {
    var merged := Merge(Merge(map[], baseline), FilledOptions(spec, options, engine));
    merged["to" := NormalizeTo(Get(merged, "to"))]
  }

  /** The table invariant: each spec is stored under its own name, a set
      render function is the one fetched for the spec's template, and no
      markdown is stored before the render function. */
  ghost predicate TableValid(templates: map<string, Spec>)
  {
    forall k :: k in templates ==>
      templates[k].name == k &&
      (templates[k].render.Some? ==> templates[k].render.value == Renderer(templates[k].template)) &&
      (templates[k].render.None? ==> templates[k].markdown.None?)
  }

  class Emeeuw {
    /** The shared baseline; `send` composes from a copy of it. */
    var message: Object
    /** The registered templates, by name. */
    var templates: map<string, Spec>

    ghost predicate Valid()
      reads this
    {
      TableValid(templates)
    }

    /** `new Emeeuw(api, options)`: the baseline from the options and an
        empty table. */
    constructor (options: Object)
      ensures Valid()
      ensures message == Baseline(options) && templates == map[]
    {
      message := Baseline(options);
      templates := map[];
    }

    /** `from(location)`: list the candidates, build a spec for each markdown
        candidate, then store every spec under its name; `root` is what
        exists at `location` and `disk` the contents of the files that can be
        read. Any error is thrown before the table changes. */
    method From(location: string, root: Option<Node>, disk: map<string, string>) returns (r: Result<Emeeuw>)
      requires Valid()
      modifies this`templates
      ensures Valid()
      ensures match Discover(location, root, disk)
        case Fail(e) => r == Fail(e) && templates == old(templates)
        case Ok(specs) => r == Ok(this) && templates == Register(old(templates), specs)
    {
      if root.None? {
        return Fail(NoSuchFile("stat", location));
      }
      var files := ListCandidates(location, root.value);
      var prepared := PrepareCandidates(files, disk);
      assert Discover(location, root, disk) == prepared;
      if prepared.Fail? {
        return Fail(prepared.error);
      }
      var specs := prepared.value;
      PrepareAllFresh(files, disk, specs);

      ghost var before := templates;
      var j := 0;
      while j < |specs|
        invariant 0 <= j <= |specs|
        invariant Register(before, specs) == Register(templates, specs[j..])
        invariant TableValid(templates)
      {
        RegisterStep(templates, specs, j);
        assert specs[j] in specs;
        templates := templates[specs[j].name := specs[j]];
        j := j + 1;
      }
      assert specs[j..] == [];
      assert Register(templates, []) == templates;
      return Ok(this);
    }

    /** `find(name)`: the lookup and compile-once cache. */
    method Find(name: string, md: string -> Result<string>) returns (r: Result<Spec>)
      requires Valid()
      modifies this`templates
      ensures Valid()
      ensures (r, templates) == Lookup(old(templates), name, md)
    {
      if name !in templates {
        return Fail("Unknown template: " + name);
      }
      var spec := templates[name];
      if spec.render.Some? {
        return Ok(spec);
      }
      spec := spec.(render := Some(Renderer(spec.template)));
      templates := templates[name := spec];
      var converted := md(spec.text);
      if converted.Fail? {
        return Fail(converted.error);
      }
      spec := spec.(markdown := Some(converted.value));
      templates := templates[name := spec];
      assert templates == old(templates)[name := spec];
      return Ok(spec);
    }

    /** `send(template, options)` up to the CSS-inlining step: returns the
        composed message, or the error of `find`, together with the caller's
        options object as `send` leaves it. */
    method Send(template: string, options: Object, md: string -> Result<string>, engine: (string, Object) -> string)
      returns (r: Result<Object>, optionsAfter: Object)
      requires Valid()
      modifies this`templates
      ensures Valid()
      ensures templates == Lookup(old(templates), template, md).1
      ensures match Lookup(old(templates), template, md).0
        case Fail(e) => r == Fail(e) && optionsAfter == options
        case Ok(spec) =>
          spec.render.Some? &&
          r == Ok(Compose(message, spec, options, engine)) &&
          optionsAfter == FilledOptions(spec, options, engine)
    {
      var outgoing := Merge(map[], message);
      optionsAfter := options;
      var found := Find(template, md);
      if found.Fail? {
        return Fail(found.error), options;
      }
      var spec := found.value;
      LookupRenders(old(templates), template, md);
      optionsAfter := optionsAfter["text" := if Truthy(Get(optionsAfter, "text")) then optionsAfter["text"] else Str(spec.text)];
      if !Truthy(Get(optionsAfter, "html")) {
        optionsAfter := Merge(optionsAfter, SpecObject(spec));
        optionsAfter := optionsAfter["html" := Str(engine(spec.render.value.template, optionsAfter))];
      }
      outgoing := Merge(outgoing, optionsAfter);
      var to := Get(outgoing, "to");
      if to.Str? {
        to := Obj(map["email" := to]);
      }
      if !to.Arr? {
        to := Arr([to]);
      }
      outgoing := outgoing["to" := to];
      r := Ok(outgoing);
    }
  }

  /** The listing stage of `from`: the location itself when it is a file;
      otherwise each directory entry in turn, a sub-directory contributing
      its entries tagged with its basename. */
  method ListCandidates(location: string, root: Node) returns (files: seq<Candidate>)
    ensures files == Candidates(location, root)
  {
    match root {
      case File(_) =>
        files := [Candidate(location, None)];
      case Dir(_, entries) =>
        files := [];
        var i := 0;
        while i < |entries|
          invariant 0 <= i <= |entries|
          invariant files + ChildCandidates(location, entries[i..]) == ChildCandidates(location, entries)
        {
          ChildCandidatesStep(location, entries, i, files);
          var file := Join(location, entries[i].name);
          var added: seq<Candidate>;
          match entries[i] {
            case Dir(_, inner) =>
              added := GroupCandidates(file, inner);
            case File(_) =>
              added := [Candidate(file, None)];
          }
          assert added == EntryCandidates(location, entries[i]);
          files := files + added;
          i := i + 1;
        }
        assert entries[i..] == [];
    }
  }

  lemma RegisterStep(table: map<string, Spec>, specs: seq<Spec>, j: nat)
    requires j < |specs|
    ensures Register(table, specs[j..]) == Register(table[specs[j].name := specs[j]], specs[j + 1..])
  {
    assert specs[j..][0] == specs[j] && specs[j..][1..] == specs[j + 1..];
  }

  /** One step of the listing stage, as `ListCandidates` takes it. */
  lemma ChildCandidatesStep(location: string, entries: seq<Node>, i: nat, files: seq<Candidate>)
    requires i < |entries|
    requires files + ChildCandidates(location, entries[i..]) == ChildCandidates(location, entries)
    ensures (files + EntryCandidates(location, entries[i])) + ChildCandidates(location, entries[i + 1..]) ==
      ChildCandidates(location, entries)
  {
    assert entries[i..][0] == entries[i] && entries[i..][1..] == entries[i + 1..];
    var a := EntryCandidates(location, entries[i]);
    var b := ChildCandidates(location, entries[i + 1..]);
    assert ChildCandidates(location, entries[i..]) == a + b;
    assert files + (a + b) == (files + a) + b;
  }

  /** The filter stage of `from`: the ".md" candidates, in order. */
  method FilterMarkdown(files: seq<Candidate>) returns (ms: seq<Candidate>)
    ensures ms == MarkdownOnly(files)
  {
    ms := [];
    var rest := files;
    while rest != []
      invariant ms + MarkdownOnly(rest) == MarkdownOnly(files)
    {
      ghost var tail := MarkdownOnly(rest[1..]);
      if IsMarkdown(rest[0]) {
        assert MarkdownOnly(rest) == [rest[0]] + tail;
        assert ms + ([rest[0]] + tail) == (ms + [rest[0]]) + tail;
        ms := ms + [rest[0]];
      } else {
        assert MarkdownOnly(rest) == tail;
      }
      rest := rest[1..];
    }
    assert ms + [] == ms;
  }

  /** The map stage of `from`: the spec of each filtered candidate in turn;
      the first unreadable text aborts. */
  method PrepareSpecs(ms: seq<Candidate>, disk: map<string, string>) returns (r: Result<seq<Spec>>)
    ensures r == PrepareEach(ms, disk)
  {
    var specs: seq<Spec> := [];
    var rest := ms;
    PrependNothing(PrepareEach(ms, disk));
    while rest != []
      invariant PrepareEach(ms, disk) == Prepend(specs, PrepareEach(rest, disk))
    {
      var prepared := PrepareSpec(rest[0], disk);
      if prepared.Fail? {
        return Fail(prepared.error);
      }
      PrependTwice(specs, prepared.value, PrepareEach(rest[1..], disk));
      specs := specs + [prepared.value];
      rest := rest[1..];
    }
    assert Prepend(specs, Ok([])) == Ok(specs) by {
      assert specs + [] == specs;
    }
    return Ok(specs);
  }

  /** The filter and map stages of `from`: keep the ".md" candidates, then
      build their specs; the first unreadable text aborts. */
  method PrepareCandidates(files: seq<Candidate>, disk: map<string, string>) returns (r: Result<seq<Spec>>)
    ensures r == PrepareAll(files, disk)
  {
    var ms := FilterMarkdown(files);
    r := PrepareSpecs(ms, disk);
    PrepareAllIsFilterThenMap(files, disk);
  }

  lemma PrependNothing(rest: Result<seq<Spec>>)
    ensures Prepend([], rest) == rest
  {
    if rest.Ok? {
      assert [] + rest.value == rest.value;
    }
  }

  lemma PrependTwice(specs: seq<Spec>, spec: Spec, rest: Result<seq<Spec>>)
    ensures Prepend(specs, Prepend([spec], rest)) == Prepend(specs + [spec], rest)
  {
    if rest.Ok? {
      assert specs + ([spec] + rest.value) == specs + [spec] + rest.value;
    }
  }

  // -----------------------------------------------------------------------
  // The lookup

  /** A successful lookup returns a spec with its render function set. */
  lemma LookupRenders(templates: map<string, Spec>, name: string, md: string -> Result<string>)
    requires TableValid(templates)
    ensures TableValid(Lookup(templates, name, md).1)
    ensures Lookup(templates, name, md).0.Ok? ==>
      var spec := Lookup(templates, name, md).0.value;
      spec.render == Some(Renderer(spec.template))
  {
  }

  /** An unknown name is an error naming it, and the table is unchanged. */
  lemma LookupUnknown(templates: map<string, Spec>, name: string, md: string -> Result<string>)
    requires name !in templates
    ensures Lookup(templates, name, md) == (Fail("Unknown template: " + name), templates)
  {
  }

  /** An entry whose render function is set is returned as it is, in any
      table, and nothing is converted or changed. */
  lemma LookupCached(templates: map<string, Spec>, name: string, md: string -> Result<string>)
    requires name in templates && templates[name].render.Some?
    ensures Lookup(templates, name, md) == (Ok(templates[name]), templates)
  {
  }

  /** The first lookup of an entry whose conversion succeeds stores the
      fetched render function and the converted markdown, and returns the
      stored entry. */
  lemma LookupCompiles(templates: map<string, Spec>, name: string, md: string -> Result<string>)
    requires name in templates && templates[name].render.None? && md(templates[name].text).Ok?
    ensures Lookup(templates, name, md).1 == templates[name := templates[name].(
      render := Some(Renderer(templates[name].template)),
      markdown := Some(md(templates[name].text).value))]
    ensures Lookup(templates, name, md).0 == Ok(Lookup(templates, name, md).1[name])
  {
  }

  /** `find` touches only the entry it looks up, and only its `render` and
      `markdown`; the returned spec is that entry. */
  lemma LookupFrame(templates: map<string, Spec>, name: string, md: string -> Result<string>)
    ensures Lookup(templates, name, md).1.Keys == templates.Keys
    ensures forall k :: k in templates && k != name ==> Lookup(templates, name, md).1[k] == templates[k]
    ensures name in templates ==>
      var spec := Lookup(templates, name, md).1[name];
      spec.(render := None, markdown := None) == templates[name].(render := None, markdown := None) &&
      spec.render.Some? &&
      (Lookup(templates, name, md).0.Ok? ==> Lookup(templates, name, md).0.value == spec)
  {
  }

  /** Compile once: after any lookup of a known name, the next lookup returns
      the stored entry, leaves the table as it is and never runs the
      markdown step, whatever that step would do. */
  lemma LookupCompilesOnce(templates: map<string, Spec>, name: string, md: string -> Result<string>, md': string -> Result<string>)
    requires name in templates
    ensures var after := Lookup(templates, name, md).1;
      Lookup(after, name, md') == (Ok(after[name]), after)
  {
  }

  /** A failed markdown step still leaves the entry looking compiled: the
      next lookup succeeds with the render function set and the markdown the
      entry had. */
  lemma FailedCompileLooksCompiled(templates: map<string, Spec>, name: string, md: string -> Result<string>, md': string -> Result<string>)
    requires name in templates && templates[name].render.None?
    requires md(templates[name].text).Fail?
    ensures Lookup(templates, name, md).0 == Fail(md(templates[name].text).error)
    ensures var after := Lookup(templates, name, md).1;
      Lookup(after, name, md').0 == Ok(templates[name].(render := Some(Renderer(templates[name].template))))
  {
  }

  /** In a valid table that entry had no markdown, so after a failed
      conversion every later lookup returns a spec with no markdown. */
  lemma FailedCompileHasNoMarkdown(templates: map<string, Spec>, name: string, md: string -> Result<string>, md': string -> Result<string>)
    requires TableValid(templates)
    requires name in templates && templates[name].render.None?
    requires md(templates[name].text).Fail?
    ensures var after := Lookup(templates, name, md).1;
      Lookup(after, name, md').0.Ok? && Lookup(after, name, md').0.value.markdown == None
  {
    FailedCompileLooksCompiled(templates, name, md, md');
  }

  // -----------------------------------------------------------------------
  // The composed message

  /** After normalisation `to` is an array: a string becomes one recipient
      object, an array is kept, anything else is wrapped; normalising again
      changes nothing. */
  lemma NormalizeToShape(to: Value)
    ensures NormalizeTo(to).Arr?
    ensures to.Str? ==> NormalizeTo(to) == Arr([Obj(map["email" := to])])
    ensures to.Arr? ==> NormalizeTo(to) == to
    ensures !to.Str? && !to.Arr? ==> NormalizeTo(to) == Arr([to])
    ensures NormalizeTo(NormalizeTo(to)) == NormalizeTo(to)
  {
  }

  /** `text` defaults to the spec's raw text when the caller's is falsy, but
      when no `html` is given the spec's text overwrites even a caller's
      text; `html` is the caller's when truthy, else the template rendered
      on the caller's options with the spec merged in. */
  lemma ComposeTextAndHtml(baseline: Object, spec: Spec, options: Object, engine: (string, Object) -> string)
    requires spec.render.Some?
    ensures var m := Compose(baseline, spec, options, engine);
      "text" in m && "html" in m &&
      (Truthy(Get(options, "html")) ==>
         m["html"] == options["html"] &&
         m["text"] == (if Truthy(Get(options, "text")) then options["text"] else Str(spec.text))) &&
      (!Truthy(Get(options, "html")) ==>
         var withText := options["text" := if Truthy(Get(options, "text")) then options["text"] else Str(spec.text)];
         m["text"] == Str(spec.text) && m["html"].Str? &&
         m["html"] == Str(engine(spec.render.value.template, Merge(withText, SpecObject(spec)))))
  {
  }

  /** The precedence of the layers: outside `to`, `text` and `html`, a key
      the caller gives wins over the baseline, except that when no `html` is
      given the spec's own properties win over both; a key only the baseline
      has keeps its value; nothing else appears. */
  lemma ComposePrecedence(baseline: Object, spec: Spec, options: Object, engine: (string, Object) -> string, k: string)
    requires spec.render.Some?
    requires k != "to" && k != "text" && k != "html"
    ensures var m := Compose(baseline, spec, options, engine);
      var specWins := !Truthy(Get(options, "html")) && k in SpecObject(spec);
      (k in m <==> k in baseline || k in options || specWins) &&
      (specWins ==> m[k] == SpecObject(spec)[k]) &&
      (!specWins && k in options ==> m[k] == options[k]) &&
      (!specWins && k !in options && k in baseline ==> m[k] == baseline[k])
  {
  }

  /** The recipients: the caller's `to` when given, else the baseline's, in
      normalised form. */
  lemma ComposeRecipients(baseline: Object, spec: Spec, options: Object, engine: (string, Object) -> string)
    requires spec.render.Some?
    ensures Compose(baseline, spec, options, engine)["to"] ==
      NormalizeTo(if "to" in options then options["to"] else Get(baseline, "to"))
  {
    assert "to" !in SpecObject(spec);
  }

  /** A string recipient in the options ends up as `[{email: s}]`. */
  lemma ComposeStringRecipient(baseline: Object, spec: Spec, options: Object, engine: (string, Object) -> string, s: string)
    requires spec.render.Some? && "to" in options && options["to"] == Str(s)
    ensures Compose(baseline, spec, options, engine)["to"] == Arr([Obj(map["email" := Str(s)])])
  {
    ComposeRecipients(baseline, spec, options, engine);
  }
}
