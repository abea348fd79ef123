/**
 * The content matcher: a file is opened and read line by line, and the
 * search succeeds on the first line the pattern matches. A file that cannot
 * be opened, and a line that cannot be read or decoded, never match.
 */
module Content {

  /** One attempt to read a line: its text, or a read or decoding failure. */
  datatype LineRead = Line(text: string) | LineError

  /**
   * A file as the content search sees it: it cannot be opened, or it yields
   * a finite sequence of line reads. A read error that repeats forever is
   * not representable.
   */
  datatype FileContent = Unopenable | Opened(lines: seq<LineRead>)

  /** Some successfully read line of `content` satisfies `isMatch`. */
  predicate ContentMatches(content: FileContent, isMatch: string -> bool) {
    content.Opened? &&
    exists i :: 0 <= i < |content.lines| && content.lines[i].Line? && isMatch(content.lines[i].text)
  }

  /** The scan as the program runs it: lines in order, returning at the first match. */
  method SearchFileContent(content: FileContent, isMatch: string -> bool) returns (found: bool)
    ensures found <==> ContentMatches(content, isMatch)
    ensures content.Unopenable? ==> !found
  {
    if content.Opened? {
      var lines := content.lines;
      var i := 0;
      while i < |lines|
        invariant 0 <= i <= |lines|
        invariant forall k :: 0 <= k < i ==> !(lines[k].Line? && isMatch(lines[k].text))
      {
        match lines[i] {
          case Line(text) =>
            if isMatch(text) {
              return true;
            }
          case LineError =>
        }
        i := i + 1;
      }
    }
    return false;
  }
}
