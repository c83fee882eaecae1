/**
 * The source-location helper of the panic-recovery middleware: the
 * caller's file and line, with the file shortened to the part after its
 * last slash.
 */
module PanicCatcher {
  import opened GoStrings

  /** The file reported when the caller cannot be looked up. */
  const UnknownFile: string := "???"

  /** The path the shortening loop works on. */
  function CallerPath(callerOk: bool, callerFile: string): (path: string) {
    if callerOk then callerFile else UnknownFile
  }

  /**
   * `getFileLine`. `callerOk`, `callerFile` and `callerLine` are what the
   * runtime's caller lookup returned. The scan runs from the end of the
   * path down to index 1 and stops at the first slash it meets, so a slash
   * at index 0 is never looked at.
   */
  method GetFileLine(callerOk: bool, callerFile: string, callerLine: int) returns (file: string, line: int)
    ensures !callerOk ==> file == UnknownFile && line == 0
    ensures callerOk ==> line == callerLine
    ensures IsSuffix(file, CallerPath(callerOk, callerFile))
    ensures var p := CallerPath(callerOk, callerFile);
      (exists j :: 0 < j < |p| && p[j] == '/') ==>
        '/' !in file && |file| < |p| && p[|p| - |file| - 1] == '/'
    ensures var p := CallerPath(callerOk, callerFile);
      (forall j :: 0 < j < |p| ==> p[j] != '/') ==> file == p
  {
    file, line := callerFile, callerLine;
    if !callerOk {
      file := UnknownFile;
      line := 0;
    }

    var short := file;
    var i := |file| - 1;
    while i > 0
      invariant -1 <= i < |file|
      invariant short == file
      invariant forall j :: i < j < |file| ==> file[j] != '/'
    {
      if file[i] == '/' {
        short := file[i + 1..];
        break;
      }
      i := i - 1;
    }
    file := short;
  }
}
