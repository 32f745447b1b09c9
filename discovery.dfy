/** What `Emeeuw.prototype.from` computes, as functions of an abstract
    directory tree and of the contents of the files on disk: the candidate
    files, the spec built for each markdown candidate, and the table the
    specs are registered into. */
module Discovery {
  import opened Results
  import opened Paths

  /** What `stat` and `readdir` report: a file, or a directory and its
      entries. `name` is the entry name `readdir` lists; the node found at
      the location given to `from` is reached by that location instead. */
  datatype Node = File(name: string) | Dir(name: string, children: seq<Node>)

  /** An element of the `files` list: a path, and for a file inside a
      sub-directory the basename of that sub-directory. */
  datatype Candidate = Candidate(file: string, group: Option<string>)

  /** The render function `temper.fetch(template).server`. */
  datatype Renderer = Renderer(template: string)

  /** A template spec, as `from` leaves it and `find` completes it. */
  datatype Spec = Spec(
    file: string,
    name: string,
    extension: string,
    filename: string,
    text: string,
    template: string,
    render: Option<Renderer>,
    markdown: Option<string>)

  /** The message of the error `fs` throws for a missing path. */
  function NoSuchFile(syscall: string, path: string): string
  {
    "ENOENT: no such file or directory, " + syscall + " '" + path + "'"
  }

  /** An entry name as `readdir` reports it: non-empty, without a separator. */
  predicate EntryName(name: string)
  {
    name != [] && forall j :: 0 <= j < |name| ==> name[j] != '/'
  }

  /** Every entry of the location and of its sub-directories is well named. */
  predicate WellNamed(root: Node)
  {
    root.Dir? ==>
      forall e :: e in root.children ==>
        EntryName(e.name) && (e.Dir? ==> forall g :: g in e.children ==> EntryName(g.name))
  }

  /** The files of a sub-directory, each tagged with the sub-directory's basename. */
  function GroupCandidates(dir: string, entries: seq<Node>): seq<Candidate>
  {
    seq(|entries|, k requires 0 <= k < |entries| =>
      Candidate(Join(dir, entries[k].name), Some(Basename(dir))))
  }

  /** What one entry of the location adds to the list. */
  function EntryCandidates(location: string, entry: Node): seq<Candidate>
  {
    var file := Join(location, entry.name);
    match entry
    case File(_) => [Candidate(file, None)]
    case Dir(_, entries) => GroupCandidates(file, entries)
  }

  function ChildCandidates(location: string, entries: seq<Node>): seq<Candidate>
  {
    if entries == [] then []
    else EntryCandidates(location, entries[0]) + ChildCandidates(location, entries[1..])
  }

  /** The `files` list for the node found at `location`. */
  function Candidates(location: string, root: Node): seq<Candidate>
  {
    match root
    case File(_) => [Candidate(location, None)]
    case Dir(_, entries) => ChildCandidates(location, entries)
  }

  /** The filter of `from`: the extension is exactly ".md". */
  predicate IsMarkdown(c: Candidate)
  {
    Extname(c.file) == ".md"
  }

  /** The path `from` reads a candidate's text from. */
  function SourcePath(c: Candidate): string
  {
    ReplaceFirst(c.file, Extname(c.file), "") + ".md"
  }

  /** The map step of `from` on one candidate; reading the text fails when
      `disk` holds no file at the path read. */
  function PrepareSpec(c: Candidate, disk: map<string, string>): Result<Spec>
  {
    var extension := Extname(c.file);
    var filename := ReplaceFirst(c.file, extension, "");
    var name := if c.group.Some? && c.group.value != "" then c.group.value
                else BasenameWithout(c.file, extension);
    var source := filename + ".md";
    if source in disk then
      Ok(Spec(c.file, name, extension, filename, disk[source], filename + ".html", None, None))
    else
      Fail(NoSuchFile("open", source))
  }

  /** `specs` followed by the specs of `rest`, or the first failure. */
  function Prepend(specs: seq<Spec>, rest: Result<seq<Spec>>): Result<seq<Spec>>
  {
    match rest
    case Ok(more) => Ok(specs + more)
    case Fail(e) => Fail(e)
  }

  /** The filter and map steps over the whole list: the first read that
      fails aborts `from` before anything is registered. */
  function PrepareAll(cs: seq<Candidate>, disk: map<string, string>): Result<seq<Spec>>
  {
    if cs == [] then Ok([])
    else if !IsMarkdown(cs[0]) then PrepareAll(cs[1..], disk)
    else match PrepareSpec(cs[0], disk)
      case Fail(e) => Fail(e)
      case Ok(spec) => Prepend([spec], PrepareAll(cs[1..], disk))
  }

  /** The filter of `from` over the whole list: the ".md" candidates, in
      order. */
  function MarkdownOnly(cs: seq<Candidate>): seq<Candidate>
  {
    if cs == [] then []
    else if IsMarkdown(cs[0]) then [cs[0]] + MarkdownOnly(cs[1..])
    else MarkdownOnly(cs[1..])
  }

  /** The map of `from` over the filtered list: the spec of each candidate
      in order, or the first read that fails. */
  function PrepareEach(cs: seq<Candidate>, disk: map<string, string>): Result<seq<Spec>>
  {
    if cs == [] then Ok([])
    else match PrepareSpec(cs[0], disk)
      case Fail(e) => Fail(e)
      case Ok(spec) => Prepend([spec], PrepareEach(cs[1..], disk))
  }

  /** Filtering first and mapping second, as `from` does, is the fused
      `PrepareAll`. */
  lemma {:induction false} PrepareAllIsFilterThenMap(cs: seq<Candidate>, disk: map<string, string>)
    ensures PrepareAll(cs, disk) == PrepareEach(MarkdownOnly(cs), disk)
  {
    if cs != [] {
      PrepareAllIsFilterThenMap(cs[1..], disk);
      if IsMarkdown(cs[0]) {
        var ms := MarkdownOnly(cs);
        assert ms[0] == cs[0] && ms[1..] == MarkdownOnly(cs[1..]);
      }
    }
  }

  /** The add step: each spec in order is stored under its name. */
  function Register(table: map<string, Spec>, specs: seq<Spec>): map<string, Spec>
    decreases specs
  {
    if specs == [] then table
    else Register(table[specs[0].name := specs[0]], specs[1..])
  }

  /** The specs `from(location)` registers, or the error it throws; `root`
      is None when nothing exists at `location`. */
  function Discover(location: string, root: Option<Node>, disk: map<string, string>): Result<seq<Spec>>
  {
    if root.None? then Fail(NoSuchFile("stat", location))
    else PrepareAll(Candidates(location, root.value), disk)
  }

  function Names(specs: seq<Spec>): set<string>
  {
    set s | s in specs :: s.name
  }

  // ---------------------------------------------------------------------
  // Registration

  /** Registering adds exactly the names of the specs: a duplicate never
      grows the table. */
  lemma {:induction false} RegisterKeys(table: map<string, Spec>, specs: seq<Spec>)
    ensures Register(table, specs).Keys == table.Keys + Names(specs)
    decreases specs
  {
    if specs != [] {
      RegisterKeys(table[specs[0].name := specs[0]], specs[1..]);
      assert specs == [specs[0]] + specs[1..];
      assert Names(specs) == {specs[0].name} + Names(specs[1..]);
    }
  }

  /** A spec that no later spec shares its name with is the one registered:
      the later duplicate wins. */
  lemma {:induction false} RegisterLastWins(table: map<string, Spec>, specs: seq<Spec>, k: nat)
    requires k < |specs|
    requires forall j :: k < j < |specs| ==> specs[j].name != specs[k].name
    ensures specs[k].name in Register(table, specs)
    ensures Register(table, specs)[specs[k].name] == specs[k]
    decreases specs
  {
    if k == 0 {
      RegisterKeepsOthers(table[specs[0].name := specs[0]], specs[1..], specs[0].name);
    } else {
      RegisterLastWins(table[specs[0].name := specs[0]], specs[1..], k - 1);
    }
  }

  /** Names no spec carries keep their old entry, or stay absent. */
  lemma {:induction false} RegisterKeepsOthers(table: map<string, Spec>, specs: seq<Spec>, name: string)
    requires forall j :: 0 <= j < |specs| ==> specs[j].name != name
    ensures name in Register(table, specs) <==> name in table
    ensures name in table ==> Register(table, specs)[name] == table[name]
    decreases specs
  {
    if specs != [] {
      RegisterKeepsOthers(table[specs[0].name := specs[0]], specs[1..], name);
    }
  }

  /** Registering overlays the specs, last one first, on the old table. */
  lemma {:induction false} RegisterIsOverlay(table: map<string, Spec>, specs: seq<Spec>)
    ensures Register(table, specs) == table + Register(map[], specs)
    decreases specs
  {
    if specs != [] {
      var s := specs[0];
      RegisterIsOverlay(table[s.name := s], specs[1..]);
      RegisterIsOverlay(map[s.name := s], specs[1..]);
      assert table[s.name := s] == table + map[s.name := s];
    }
  }

  /** Registering the same specs twice gives the table registering them once
      gives. */
  lemma RegisterIdempotent(table: map<string, Spec>, specs: seq<Spec>)
    ensures Register(Register(table, specs), specs) == Register(table, specs)
  {
    RegisterIsOverlay(table, specs);
    RegisterIsOverlay(Register(table, specs), specs);
  }

  // ---------------------------------------------------------------------
  // Filtering and reading

  /** The spec `from` builds for a markdown candidate. */
  predicate Yields(c: Candidate, disk: map<string, string>, s: Spec)
  {
    IsMarkdown(c) && PrepareSpec(c, disk) == Ok(s)
  }

  /** `from` keeps exactly the markdown candidates: every spec comes from one,
      and every markdown candidate yields a spec. */
  lemma {:induction false} PrepareAllKeepsMarkdown(cs: seq<Candidate>, disk: map<string, string>, specs: seq<Spec>)
    requires PrepareAll(cs, disk) == Ok(specs)
    ensures forall s :: s in specs ==> exists c :: c in cs && Yields(c, disk, s)
    ensures forall c :: c in cs && IsMarkdown(c) ==> exists s :: s in specs && Yields(c, disk, s)
  {
    if cs != [] {
      var first, rest := cs[0], cs[1..];
      assert cs == [first] + rest;
      var more: seq<Spec>;
      if !IsMarkdown(first) {
        more := specs;
      } else {
        var spec := PrepareSpec(first, disk).value;
        more := PrepareAll(rest, disk).value;
        assert specs == [spec] + more;
        assert Yields(first, disk, spec);
      }
      PrepareAllKeepsMarkdown(rest, disk, more);
      forall s | s in specs
        ensures exists c :: c in cs && Yields(c, disk, s)
      {
        if s in more {
          var c :| c in rest && Yields(c, disk, s);
          assert c in cs;
        } else {
          assert Yields(first, disk, s);
        }
      }
      forall c | c in cs && IsMarkdown(c)
        ensures exists s :: s in specs && Yields(c, disk, s)
      {
        if c != first {
          assert c in rest;
          var s :| s in more && Yields(c, disk, s);
          assert s in specs;
        } else {
          assert specs[0] in specs && Yields(c, disk, specs[0]);
        }
      }
    }
  }

  /** A markdown candidate whose text cannot be read. */
  predicate Unreadable(c: Candidate, disk: map<string, string>)
  {
    IsMarkdown(c) && SourcePath(c) !in disk
  }

  /** `from` throws exactly when the text of some markdown candidate cannot
      be read. */
  lemma {:induction false} PrepareAllFails(cs: seq<Candidate>, disk: map<string, string>)
    ensures PrepareAll(cs, disk).Fail? <==> exists c :: c in cs && Unreadable(c, disk)
  {
    if cs != [] {
      var first, rest := cs[0], cs[1..];
      assert cs == [first] + rest;
      PrepareAllFails(rest, disk);
      if exists c :: c in rest && Unreadable(c, disk) {
        var c :| c in rest && Unreadable(c, disk);
        assert c in cs;
      }
      if !IsMarkdown(first) {
        assert PrepareAll(cs, disk) == PrepareAll(rest, disk);
      } else if SourcePath(first) !in disk {
        assert PrepareSpec(first, disk).Fail?;
        assert Unreadable(first, disk);
      } else {
        assert PrepareSpec(first, disk).Ok?;
        assert PrepareAll(cs, disk) == Prepend([PrepareSpec(first, disk).value], PrepareAll(rest, disk));
      }
    }
  }

  /** Every spec `from` builds is unrendered, has the ".md" extension and
      takes its text from the path it read. */
  lemma PrepareAllFresh(cs: seq<Candidate>, disk: map<string, string>, specs: seq<Spec>)
    requires PrepareAll(cs, disk) == Ok(specs)
    ensures forall s :: s in specs ==>
      s.render == None && s.markdown == None && s.extension == ".md" &&
      Extname(s.file) == ".md" && s.template == s.filename + ".html" &&
      s.filename + ".md" in disk && s.text == disk[s.filename + ".md"]
  {
    PrepareAllKeepsMarkdown(cs, disk, specs);
    forall s | s in specs
      ensures s.render == None && s.markdown == None && s.extension == ".md" &&
        Extname(s.file) == ".md" && s.template == s.filename + ".html" &&
        s.filename + ".md" in disk && s.text == disk[s.filename + ".md"]
    {
      var c :| c in cs && Yields(c, disk, s);
    }
  }

  // ---------------------------------------------------------------------
  // Naming

  /** A file taken on its own is named by its basename without ".md". */
  lemma DirectName(c: Candidate, disk: map<string, string>, s: Spec)
    requires c.group == None && IsMarkdown(c) && PrepareSpec(c, disk) == Ok(s)
    ensures s.name != "" && s.name + ".md" == Basename(c.file)
  {
    var b := Basename(c.file);
    assert |b| > 3 && EndsWith(b, ".md") by {
      ExtnameIsMarkdown(c.file);
    }
    assert s.name == b[..|b| - 3] by {
      assert s.name == BasenameWithout(c.file, ".md");
    }
    assert b == b[..|b| - 3] + b[|b| - 3..];
  }

  /** A file inside a sub-directory is named after the sub-directory. */
  lemma GroupName(c: Candidate, disk: map<string, string>, s: Spec)
    requires c.group.Some? && c.group.value != "" && PrepareSpec(c, disk) == Ok(s)
    ensures s.name == c.group.value
  {
  }

  /** The `template` and the read path follow `filename`, the file path with
      its first ".md" removed; when that ".md" is the extension, the text is
      the file's own. */
  lemma FilenameOfSpec(c: Candidate, disk: map<string, string>, s: Spec)
    requires IsMarkdown(c) && PrepareSpec(c, disk) == Ok(s)
    ensures s.filename == ReplaceFirst(c.file, ".md", "")
    ensures s.template == s.filename + ".html"
    ensures s.text == disk[s.filename + ".md"]
    ensures IndexOf(c.file, ".md") == |c.file| - 3 ==> s.filename + ".md" == c.file
  {
    var f := c.file;
    assert s.filename == ReplaceFirst(f, ".md", "");
    if IndexOf(f, ".md") == |f| - 3 {
      assert EndsWith(f, ".md") by {
        assert OccursAt(f, ".md", |f| - 3);
        assert f[|f| - 3..] == f[|f| - 3..|f|];
      }
      ReplaceSuffixOnly(f);
    }
  }

  // ---------------------------------------------------------------------
  // The candidate list

  /** A file directly in the location. */
  predicate DirectIn(location: string, e: Node, c: Candidate)
  {
    e.File? && c == Candidate(Join(location, e.name), None)
  }

  /** An entry of a sub-directory, tagged with the sub-directory's basename. */
  ghost predicate GroupedIn(location: string, e: Node, c: Candidate)
  {
    e.Dir? &&
    exists g :: g in e.children &&
      c == Candidate(Join(Join(location, e.name), g.name), Some(Basename(Join(location, e.name))))
  }

  /** The independent description of the candidate list: the location
      itself when it is a file; otherwise each file directly in it, and each
      entry of each of its sub-directories. */
  ghost predicate ListedAt(location: string, root: Node, c: Candidate)
  {
    match root
    case File(_) => c == Candidate(location, None)
    case Dir(_, entries) =>
      exists e :: e in entries && (DirectIn(location, e, c) || GroupedIn(location, e, c))
  }

  lemma {:induction false} ChildCandidatesListed(location: string, entries: seq<Node>, c: Candidate)
    ensures c in ChildCandidates(location, entries) <==>
      exists e :: e in entries && (DirectIn(location, e, c) || GroupedIn(location, e, c))
  {
    if entries != [] {
      var e, rest := entries[0], entries[1..];
      assert entries == [e] + rest;
      ChildCandidatesListed(location, rest, c);
      if e.Dir? {
        var dir := Join(location, e.name);
        if c in EntryCandidates(location, e) {
          var k :| 0 <= k < |e.children| && EntryCandidates(location, e)[k] == c;
          assert e.children[k] in e.children;
          assert GroupedIn(location, e, c);
        }
        if GroupedIn(location, e, c) {
          var g :| g in e.children && c == Candidate(Join(dir, g.name), Some(Basename(dir)));
          var k :| 0 <= k < |e.children| && e.children[k] == g;
          assert EntryCandidates(location, e)[k] == c;
        }
      }
      assert c in EntryCandidates(location, e) <==> DirectIn(location, e, c) || GroupedIn(location, e, c);
    }
  }

  /** The candidate list holds exactly what `ListedAt` describes. */
  lemma CandidatesListed(location: string, root: Node, c: Candidate)
    ensures c in Candidates(location, root) <==> ListedAt(location, root, c)
  {
    if root.Dir? {
      ChildCandidatesListed(location, root.children, c);
    }
  }

  /** The name a spec gets when its file sits directly in the location, or
      is the location: its basename without ".md". */
  predicate NamedAsFile(location: string, root: Node, s: Spec)
  {
    s.name + ".md" == Basename(s.file) &&
    match root
    case File(_) => s.file == location
    case Dir(_, entries) => exists e :: e in entries && e.File? && s.file == Join(location, e.name)
  }

  /** The name a spec gets when its file sits in a sub-directory: the name of
      that sub-directory. */
  ghost predicate NamedAsGroup(location: string, root: Node, s: Spec)
  {
    root.Dir? &&
    exists e :: e in root.children && e.Dir? && s.name == e.name && InGroup(location, e, s.file)
  }

  ghost predicate InGroup(location: string, e: Node, file: string)
    requires e.Dir?
  {
    exists g :: g in e.children && file == Join(Join(location, e.name), g.name)
  }

  /** The name of a spec built from an entry of a sub-directory. */
  lemma GroupedName(location: string, root: Node, e: Node, c: Candidate, disk: map<string, string>, s: Spec)
    requires root.Dir? && e in root.children && EntryName(e.name)
    requires GroupedIn(location, e, c) && PrepareSpec(c, disk) == Ok(s)
    ensures NamedAsGroup(location, root, s)
  {
    var dir := Join(location, e.name);
    var g :| g in e.children && c == Candidate(Join(dir, g.name), Some(Basename(dir)));
    BasenameOfJoin(location, e.name);
    GroupName(c, disk, s);
    assert s.file == c.file;
    assert InGroup(location, e, s.file);
  }

  /** The name of the spec built from one candidate of the list. */
  lemma DiscoveredName(location: string, root: Node, disk: map<string, string>, c: Candidate, s: Spec)
    requires WellNamed(root)
    requires c in Candidates(location, root) && Yields(c, disk, s)
    ensures Extname(s.file) == ".md"
    ensures NamedAsFile(location, root, s) || NamedAsGroup(location, root, s)
  {
    assert s.file == c.file;
    CandidatesListed(location, root, c);
    if root.File? {
      DirectName(c, disk, s);
    } else {
      var e :| e in root.children && (DirectIn(location, e, c) || GroupedIn(location, e, c));
      if e.File? {
        DirectName(c, disk, s);
        assert NamedAsFile(location, root, s);
      } else {
        GroupedName(location, root, e, c, disk, s);
      }
    }
  }

  /** The names `from` gives: a markdown file found directly, or given as the
      location, is named by its basename without ".md"; a file inside a
      sub-directory is named by that sub-directory. */
  lemma DiscoveredNames(location: string, root: Node, disk: map<string, string>, specs: seq<Spec>)
    requires WellNamed(root)
    requires Discover(location, Some(root), disk) == Ok(specs)
    ensures forall s :: s in specs ==> Extname(s.file) == ".md"
    ensures forall s :: s in specs ==> NamedAsFile(location, root, s) || NamedAsGroup(location, root, s)
  {
    var cs := Candidates(location, root);
    PrepareAllKeepsMarkdown(cs, disk, specs);
    forall s | s in specs
      ensures Extname(s.file) == ".md"
      ensures NamedAsFile(location, root, s) || NamedAsGroup(location, root, s)
    {
      var c :| c in cs && Yields(c, disk, s);
      DiscoveredName(location, root, disk, c, s);
    }
  }

  /** The candidates of a directory holding two files. */
  lemma TwoFileCandidates(location: string, a: string, b: string)
    ensures Candidates(location, Dir(location, [File(a), File(b)])) ==
      [Candidate(Join(location, a), None), Candidate(Join(location, b), None)]
  {
    var entries := [File(a), File(b)];
    assert entries[1..] == [File(b)] && [File(b)][1..] == [];
    assert ChildCandidates(location, [File(b)]) == [Candidate(Join(location, b), None)];
  }

  /** Of a markdown candidate followed by another candidate, only the first
      is prepared. */
  lemma PrepareFirstOnly(c0: Candidate, c1: Candidate, disk: map<string, string>)
    requires IsMarkdown(c0) && !IsMarkdown(c1) && PrepareSpec(c0, disk).Ok?
    ensures PrepareAll([c0, c1], disk) == Ok([PrepareSpec(c0, disk).value])
  {
    assert [c0, c1][1..] == [c1] && [c1][1..] == [];
    assert PrepareAll([c1], disk) == Ok([]);
    assert [PrepareSpec(c0, disk).value] + [] == [PrepareSpec(c0, disk).value];
  }

  /** A directory holding one markdown file and one other file registers
      only the markdown file, under its name without ".md" (a directory with
      "a.md" and "b.txt" registers only "a"). */
  lemma OnlyMarkdownRegistered(location: string, md: string, other: string, disk: map<string, string>)
    requires EntryName(md) && EntryName(other)
    requires |md| > 3 && EndsWith(md, ".md")
    requires !(|other| > 3 && EndsWith(other, ".md"))
    requires SourcePath(Candidate(Join(location, md), None)) in disk
    ensures Discover(location, Some(Dir(location, [File(md), File(other)])), disk).Ok?
    ensures Register(map[], Discover(location, Some(Dir(location, [File(md), File(other)])), disk).value).Keys
      == {md[..|md| - 3]}
  {
    var c0 := Candidate(Join(location, md), None);
    var c1 := Candidate(Join(location, other), None);
    TwoFileCandidates(location, md, other);
    assert IsMarkdown(c0) by {
      BasenameOfJoin(location, md);
      ExtnameIsMarkdown(Join(location, md));
    }
    assert !IsMarkdown(c1) by {
      BasenameOfJoin(location, other);
      ExtnameIsMarkdown(Join(location, other));
    }
    var spec := PrepareSpec(c0, disk).value;
    PrepareFirstOnly(c0, c1, disk);
    assert spec.name == md[..|md| - 3] by {
      DirectName(c0, disk, spec);
      BasenameOfJoin(location, md);
    }
    RegisterKeys(map[], [spec]);
    NamesOfOne(spec);
  }

  lemma NamesOfOne(spec: Spec)
    ensures Names([spec]) == {spec.name}
  {
    assert forall x :: x in [spec] <==> x == spec;
  }
}
