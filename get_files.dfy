/** The web build's bundle (app/api/get-files/route.ts): a `POST` handler
    that turns a directory and a list of selected relative paths into a
    `<files>` document. Selections named `.gitignore` or ignored by the
    directory's `.gitignore` are left out; the rest become file, directory
    or error elements, read from a fixed set of mock contents when no file
    system is available or the directory is the sample project. */
module GetFiles {
  import opened Optional
  import opened FileSystem
  import IgnoreUtils
  import ListDirectory

  /** The fields of the parsed JSON body; `None` for a field that is
      missing (or, for `selections`, not an array). */
  datatype RequestBody = RequestBody(dirPath: Option<string>, selections: Option<seq<string>>)

  /** The response: a status and a text body. */
  datatype Response = Response(status: int, body: string)

  /** Where the elements come from. `skipped` is the skip test of the
      loop, `useMock` the test `!fs || dirPath === "/sample/project"`,
      `mock` the table of mock contents and `probe` is `stat` and
      `readFile` of a full path. */
  datatype Source = Source(dirPath: string, skipped: string -> bool, useMock: bool,
                           mock: map<string, string>, probe: string -> Probe)

  /** The patterns of the request's directory: none without a file system
      or when `.gitignore` cannot be read. */
  function Patterns(fsAvailable: bool, gitignore: Option<string>): (r: seq<string>)
    ensures !fsAvailable || gitignore.None? ==> r == []
  {
    if !fsAvailable then [] else ListDirectory.ReadGitignore(gitignore)
  }

  /** The skip test: `.gitignore` itself, or a path a non-empty pattern list
      ignores. */
  predicate Skipped(rel: string, patterns: seq<string>)
    requires ListDirectory.AllCompilable(patterns)
  {
    rel == ".gitignore" || (|patterns| > 0 && IgnoreUtils.IsIgnored(rel, patterns))
  }

  /** The element of a selection that is not skipped: a mock file with
      non-empty content, else a directory marker, in the mock branch; the
      probed file, directory or error otherwise. */
  function Element(rel: string, src: Source): string {
    if src.useMock then
      if rel in src.mock && src.mock[rel] != "" then FileElement(rel, src.mock[rel])
      else DirectoryElement(rel)
    else ProbeElement(rel, src.probe(JoinPath(src.dirPath, rel)))
  }

  /** The elements of the selections, in order, without the skipped ones. */
  function Elements(selections: seq<string>, src: Source): seq<string>
  {
    if selections == [] then []
    else
      (if src.skipped(selections[0]) then [] else [Element(selections[0], src)])
        + Elements(selections[1..], src)
  }

  /** What the handler answers. `request` is `None` when the body is not
      JSON; `fsAvailable` is whether `fs/promises` and `path` could be
      loaded; `gitignore` is the outcome of reading the directory's
      `.gitignore`. */
  function Post(request: Option<RequestBody>, fsAvailable: bool, gitignore: Option<string>,
                mock: map<string, string>, probe: string -> Probe): Response
    requires ListDirectory.AllCompilable(Patterns(fsAvailable, gitignore))
  {
    match request
    case None => Response(500, "Internal server error")
    case Some(body) =>
      if body.dirPath.None? || body.dirPath.value == "" || body.selections.None? then
        Response(400, "Invalid request body")
      else
        var src := SourceOf(body.dirPath.value, fsAvailable, gitignore, mock, probe);
        Response(200, "<files>\n" + Concat(Elements(body.selections.value, src)) + "</files>")
  }

  function SourceOf(dirPath: string, fsAvailable: bool, gitignore: Option<string>,
                    mock: map<string, string>, probe: string -> Probe): (src: Source)
    requires ListDirectory.AllCompilable(Patterns(fsAvailable, gitignore))
    ensures forall rel :: src.skipped(rel) == Skipped(rel, Patterns(fsAvailable, gitignore))
  {
    var patterns := Patterns(fsAvailable, gitignore);
    Source(dirPath, rel => Skipped(rel, patterns), !fsAvailable || dirPath == "/sample/project", mock, probe)
  }

  method PostRequest(request: Option<RequestBody>, fsAvailable: bool, gitignore: Option<string>,
                     mock: map<string, string>, probe: string -> Probe)
    returns (response: Response)
    requires ListDirectory.AllCompilable(Patterns(fsAvailable, gitignore))
    ensures response == Post(request, fsAvailable, gitignore, mock, probe)
  {
    if request.None? {
      return Response(500, "Internal server error");
    }
    var body := request.value;
    if body.dirPath.None? || body.dirPath.value == "" || body.selections.None? {
      return Response(400, "Invalid request body");
    }
    var src := SourceOf(body.dirPath.value, fsAvailable, gitignore, mock, probe);
    var xml := BuildFiles(body.selections.value, src);
    return Response(200, xml);
  }

  /** The loop over the selections. */
  method BuildFiles(selections: seq<string>, src: Source) returns (xml: string)
    ensures xml == "<files>\n" + Concat(Elements(selections, src)) + "</files>"
  {
    xml := "<files>\n";
    var i := 0;
    assert selections[..0] == [];
    while i < |selections|
      invariant 0 <= i <= |selections|
      invariant xml == "<files>\n" + Concat(Elements(selections[..i], src))
    {
      var rel := selections[i];
      ElementsStep(selections, i, src);
      if src.skipped(rel) {
        assert Elements(selections[..i], src) + [] == Elements(selections[..i], src);
        i := i + 1;
        continue;
      }
      var element: string;
      if src.useMock {
        if rel in src.mock && src.mock[rel] != "" {
          element := FileElement(rel, src.mock[rel]);
        } else {
          element := DirectoryElement(rel);
        }
      } else {
        var info := src.probe(JoinPath(src.dirPath, rel));
        match info {
          case IsFile(content) =>
            element := FileElement(rel, content);
          case IsOther =>
            element := DirectoryElement(rel);
          case Fails =>
            element := ErrorElement(rel);
        }
      }
      assert element == Element(rel, src);
      ConcatSnoc("<files>\n", Elements(selections[..i], src), element);
      xml := xml + element;
      i := i + 1;
    }
    assert selections[..i] == selections;
    xml := xml + "</files>";
  }

  /** The elements of one more selection. */
  lemma ElementsStep(selections: seq<string>, i: nat, src: Source)
    requires i < |selections|
    ensures Elements(selections[..i + 1], src) ==
      Elements(selections[..i], src) + (if src.skipped(selections[i]) then [] else [Element(selections[i], src)])
  {
    assert selections[..i + 1] == selections[..i] + [selections[i]];
    ElementsAppend(selections[..i], [selections[i]], src);
  }

  /** The elements of two lists of selections one after the other are the
      elements of each, one after the other. */
  lemma {:induction false} ElementsAppend(a: seq<string>, b: seq<string>, src: Source)
    ensures Elements(a + b, src) == Elements(a, src) + Elements(b, src)
  {
    if a == [] {
      assert a + b == b;
    } else {
      assert (a + b)[0] == a[0];
      assert (a + b)[1..] == a[1..] + b;
      ElementsAppend(a[1..], b, src);
    }
  }

  /** The handler's branches: 500 when the body is not JSON, 400 for a
      missing `dirPath` or `selections`, otherwise the document; the mock
      contents are used without a file system and for the sample project. */
  lemma PostBranches(request: Option<RequestBody>, fsAvailable: bool, gitignore: Option<string>,
                     mock: map<string, string>, probe: string -> Probe)
    requires ListDirectory.AllCompilable(Patterns(fsAvailable, gitignore))
    ensures var r := Post(request, fsAvailable, gitignore, mock, probe);
      && (r.status == 500 <==> request.None?)
      && (r.status == 400 <==>
            (request.Some? && (request.value.dirPath.None? || request.value.dirPath.value == ""
                               || request.value.selections.None?)))
      && (r.status == 200 ==>
            var body := request.value;
            var src := SourceOf(body.dirPath.value, fsAvailable, gitignore, mock, probe);
            && src.useMock == (!fsAvailable || body.dirPath.value == "/sample/project")
            && r.body == "<files>\n" + Concat(Elements(body.selections.value, src)) + "</files>")
  {
  }

  /** A `.gitignore` selection adds nothing, wherever it stands. */
  lemma GitignoreLeftOut(a: seq<string>, b: seq<string>, src: Source)
    requires src.skipped(".gitignore")
    ensures Elements(a + [".gitignore"] + b, src) == Elements(a + b, src)
  {
    var g := [".gitignore"];
    ElementsAppend(a, g, src);
    SkippedAlone(".gitignore", src);
    assert Elements(a, src) + [] == Elements(a, src);
    assert Elements(a + g, src) == Elements(a, src);
    ElementsAppend(a + g, b, src);
    ElementsAppend(a, b, src);
  }

  lemma SkippedAlone(rel: string, src: Source)
    requires src.skipped(rel)
    ensures Elements([rel], src) == []
  {
    assert [rel][1..] == [];
  }

  /** In the mock branch the file system is never consulted. */
  lemma {:induction false} MockIgnoresDisk(selections: seq<string>, src: Source, probe: string -> Probe)
    requires src.useMock
    ensures Elements(selections, src) == Elements(selections, src.(probe := probe))
  {
    if selections != [] {
      MockIgnoresDisk(selections[1..], src, probe);
    }
  }

  /** When no selection is skipped (as with no patterns and no
      `.gitignore` among them), every selection has its element, in order. */
  lemma {:induction false} NothingSkipped(selections: seq<string>, src: Source)
    requires forall k | 0 <= k < |selections| :: !src.skipped(selections[k])
    ensures |Elements(selections, src)| == |selections|
    ensures forall k | 0 <= k < |selections| :: Elements(selections, src)[k] == Element(selections[k], src)
  {
    if selections != [] {
      NothingSkipped(selections[1..], src);
      assert !src.skipped(selections[0]);
      forall k | 1 <= k < |selections|
        ensures Elements(selections, src)[k] == Element(selections[k], src)
      {
        assert selections[1..][k - 1] == selections[k];
      }
    }
  }
}
