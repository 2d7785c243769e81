/** The file system as the directory walks and bundle builders see it. The
    walks only `readdir` and `stat`, so a directory is a tree of entries
    whose `stat` either succeeds (a file or a directory) or throws, and
    whose `readdir` either lists entries or throws. The bundle builders
    `stat` and read one path at a time, which is a `Probe`. */
module FileSystem {

  datatype Entry =
    | FileEntry(name: string)                   // `stat` succeeds, not a directory
    | DirEntry(name: string, listing: Listing)  // `stat` says directory
    | BrokenEntry(name: string)                 // `stat` throws

  /** The outcome of `readdir` on a directory, in the order it lists. */
  datatype Listing = Unreadable | Entries(entries: seq<Entry>)

  /** `stat` and, for a file, `readFile` of one path. */
  datatype Probe =
    | IsFile(content: string)  // a file whose content could be read
    | IsOther                  // `stat` succeeds and it is not a file
    | Fails                    // `stat` or `readFile` throws

  /** `path.join(base, name)` for a relative base and one entry name:
      an empty base contributes nothing. */
  function JoinPath(base: string, name: string): (r: string)
    ensures base == "" ==> r == name
    ensures base != "" ==> |r| == |base| + 1 + |name| && r[|base|] == '/'
  {
    if base == "" then name else base + "/" + name
  }

  /** The `<files>` elements shared by both bundle builders. */
  function FileElement(path: string, content: string): string {
    "  <file path=\"" + path + "\">\n" + content + "\n  </file>\n"
  }

  function DirectoryElement(path: string): string {
    "  <directory path=\"" + path + "\" />\n"
  }

  function ErrorElement(path: string): string {
    "  <file path=\"" + path + "\" error=\"Unable to read\" />\n"
  }

  /** The element a bundle builder writes for a path it probed: the file
      with its content, a directory marker, or an error marker when `stat`
      or the read throws. */
  function ProbeElement(path: string, probe: Probe): string {
    match probe
    case IsFile(content) => FileElement(path, content)
    case IsOther => DirectoryElement(path)
    case Fails => ErrorElement(path)
  }

  /** The strings of a list, one after the other (`xml += …` in a loop). */
  function Concat(parts: seq<string>): string {
    if parts == [] then "" else parts[0] + Concat(parts[1..])
  }

  lemma {:induction false} ConcatAppend(a: seq<string>, b: seq<string>)
    ensures Concat(a + b) == Concat(a) + Concat(b)
  {
    if a == [] {
      assert a + b == b;
    } else {
      assert (a + b)[1..] == a[1..] + b;
      ConcatAppend(a[1..], b);
    }
  }

  lemma ConcatPrefix(parts: seq<string>, i: nat)
    requires i < |parts|
    ensures Concat(parts[..i + 1]) == Concat(parts[..i]) + parts[i]
  {
    assert parts[..i + 1] == parts[..i] + [parts[i]];
    ConcatAppend(parts[..i], [parts[i]]);
    assert Concat([parts[i]]) == parts[i] + Concat([]);
  }

  /** One more part appended to a text that ends with the first `i`. */
  lemma ConcatStep(head: string, parts: seq<string>, i: nat)
    requires i < |parts|
    ensures head + Concat(parts[..i]) + parts[i] == head + Concat(parts[..i + 1])
  {
    ConcatPrefix(parts, i);
  }

  lemma ConcatSnoc(head: string, parts: seq<string>, last: string)
    ensures head + Concat(parts) + last == head + Concat(parts + [last])
  {
    ConcatAppend(parts, [last]);
    assert Concat([last]) == last + Concat([]);
  }

  /** Each part stands, whole, between the parts before it and those after. */
  lemma ConcatAround(parts: seq<string>, k: nat)
    requires k < |parts|
    ensures Concat(parts) == Concat(parts[..k]) + parts[k] + Concat(parts[k + 1..])
  {
    assert parts == parts[..k + 1] + parts[k + 1..];
    ConcatAppend(parts[..k + 1], parts[k + 1..]);
    ConcatPrefix(parts, k);
  }
}
