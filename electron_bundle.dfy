/** The desktop bundle (the `read-files` handler of electron/main.js): the
    `<files>` document that holds the file map of the selections and then,
    selection by selection, each file's content, a directory marker, or an
    error marker. */
module ElectronBundle {
  import opened Strings
  import opened FileSystem
  import FileMap

  /** The `<file_map>` section, present only when the map is not empty; the
      map goes in line by line, joined again by line breaks. */
  function MapBlock(fileMap: string): string {
    if fileMap == "" then ""
    else "  <file_map>\n" + Join(Split(fileMap, '\n'), "\n") + "\n  </file_map>\n\n"
  }

  /** The element for each selection, in the order of the selections;
      `probe` is `stat` and `readFile` of a full path. */
  function Elements(dirPath: string, selections: seq<string>, probe: string -> Probe): (r: seq<string>)
    ensures |r| == |selections|
  {
    seq(|selections|, k requires 0 <= k < |selections| =>
      ProbeElement(selections[k], probe(JoinPath(dirPath, selections[k]))))
  }

  /** The document `read-files` answers; `le` is `localeCompare`, which
      orders the map. */
  function Bundle(dirPath: string, selections: seq<string>, probe: string -> Probe,
                  le: (string, string) -> bool): string
  {
    "<files>\n" + MapBlock(FileMap.FileMapText(dirPath, selections, le))
      + Concat(Elements(dirPath, selections, probe)) + "</files>"
  }

  method ReadFiles(dirPath: string, selections: seq<string>, probe: string -> Probe,
                   le: (string, string) -> bool)
    returns (xml: string)
    ensures xml == Bundle(dirPath, selections, probe, le)
  {
    var fileMap := FileMap.GenerateFileMap(dirPath, selections, le);
    xml := "<files>\n";
    if fileMap != "" {
      xml := xml + "  <file_map>\n";
      xml := xml + Join(Split(fileMap, '\n'), "\n");
      xml := xml + "\n  </file_map>\n\n";
    }
    assert xml == "<files>\n" + MapBlock(FileMap.FileMapText(dirPath, selections, le));
    xml := AppendElements(xml, dirPath, selections, probe);
    xml := xml + "</files>";
  }

  /** The loop over the selections: `stat` each one, then add its element. */
  method AppendElements(head: string, dirPath: string, selections: seq<string>, probe: string -> Probe)
    returns (xml: string)
    ensures xml == head + Concat(Elements(dirPath, selections, probe))
  {
    xml := head;
    ghost var elements := Elements(dirPath, selections, probe);
    var i := 0;
    while i < |selections|
      invariant 0 <= i <= |selections|
      invariant xml == head + Concat(elements[..i])
    {
      var rel := selections[i];
      var info := probe(JoinPath(dirPath, rel));
      var element: string;
      match info {
        case IsFile(content) =>
          element := FileElement(rel, content);
        case IsOther =>
          element := DirectoryElement(rel);
        case Fails =>
          element := ErrorElement(rel);
      }
      assert element == elements[i];
      ConcatStep(head, elements, i);
      xml := xml + element;
      i := i + 1;
    }
    assert elements[..i] == elements;
  }

  /** The map section holds the map unchanged, and is absent exactly when
      the map is empty. */
  lemma MapBlockHoldsMap(fileMap: string)
    ensures fileMap == "" <==> MapBlock(fileMap) == ""
    ensures fileMap != "" ==> MapBlock(fileMap) == "  <file_map>\n" + fileMap + "\n  </file_map>\n\n"
  {
    assert "\n" == ['\n'];
    JoinSplit(fileMap, '\n');
  }

  /** Without selections the document is empty; otherwise, with a root
      path, the map section is present. */
  lemma BundleWithoutSelections(dirPath: string, probe: string -> Probe, le: (string, string) -> bool)
    ensures Bundle(dirPath, [], probe, le) == "<files>\n</files>"
  {
    assert Elements(dirPath, [], probe) == [];
  }

  lemma MapPresent(dirPath: string, selections: seq<string>, le: (string, string) -> bool)
    requires |selections| > 0 && dirPath != ""
    ensures MapBlock(FileMap.FileMapText(dirPath, selections, le)) != ""
  {
    FileMap.FileMapStartsWithRoot(dirPath, selections, le);
  }

  /** Every selection has its element in the document, and a selection
      that is a readable file has its content there verbatim. */
  lemma SelectionInBundle(dirPath: string, selections: seq<string>, probe: string -> Probe,
                          le: (string, string) -> bool, k: nat)
    requires k < |selections|
    ensures var e := ProbeElement(selections[k], probe(JoinPath(dirPath, selections[k])));
      Contains(Bundle(dirPath, selections, probe, le), e)
    ensures probe(JoinPath(dirPath, selections[k])).IsFile? ==>
      Contains(Bundle(dirPath, selections, probe, le), probe(JoinPath(dirPath, selections[k])).content)
  {
    var elements := Elements(dirPath, selections, probe);
    var e := elements[k];
    var head := "<files>\n" + MapBlock(FileMap.FileMapText(dirPath, selections, le));
    var before := head + Concat(elements[..k]);
    var after := Concat(elements[k + 1..]) + "</files>";
    ConcatAround(elements, k);
    Regroup(head, Concat(elements[..k]), e, Concat(elements[k + 1..]), "</files>");
    ContainsMiddle(before, e, after);
    var p := probe(JoinPath(dirPath, selections[k]));
    if p.IsFile? {
      var open, close := FileElementAround(selections[k], p.content);
      Regroup(before, open, p.content, close, after);
      ContainsMiddle(before + open, p.content, close + after);
    }
  }

  /** A file element is its content with an opening and a closing tag. */
  lemma FileElementAround(path: string, content: string) returns (open: string, close: string)
    ensures FileElement(path, content) == open + content + close
  {
    open := "  <file path=\"" + path + "\">\n";
    close := "\n  </file>\n";
  }

  lemma Regroup(h: string, p: string, e: string, q: string, t: string)
    ensures h + (p + e + q) + t == (h + p) + e + (q + t)
  {
  }
}
