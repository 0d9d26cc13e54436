/**
  The path pattern `^/(edit|save|view)/([a-zA-Z0-9]+)$` of goTest.go:17,
  stated as a parser over the path rather than as regular-expression
  matching.  Go's `$` without the multi-line flag matches only at the end of
  the text, so nothing may follow the identifier, not even a newline.
 */
module PathValidator {

  import opened Wrappers

  /** The operation named by the first path segment. */
  datatype Op = Edit | Save | View

  function OpName(op: Op): string {
    match op
    case Edit => "edit"
    case Save => "save"
    case View => "view"
  }

  /** The inverse of `OpName` on the three names, and `None` on any other segment. */
  function ParseOp(s: string): (r: Option<Op>)
    ensures r.Some? ==> OpName(r.value) == s
    ensures forall op :: OpName(op) == s ==> r == Some(op)
  {
    if s == "edit" then Some(Edit)
    else if s == "save" then Some(Save)
    else if s == "view" then Some(View)
    else None
  }

  /** One character of the class `[a-zA-Z0-9]`. */
  predicate IsAlnum(c: char) {
    'a' <= c <= 'z' || 'A' <= c <= 'Z' || '0' <= c <= '9'
  }

  /** A page identifier: `[a-zA-Z0-9]+`. */
  predicate IsId(s: string) {
    |s| > 0 && forall k :: 0 <= k < |s| ==> IsAlnum(s[k])
  }

  /** The path for operation `op` on page `id`. */
  function PathOf(op: Op, id: string): string {
    "/" + OpName(op) + "/" + id
  }

  /**
    `validPath.FindStringSubmatch(path)` reduced to its two capture groups:
    `Some((op, id))` when the whole path matches, `None` when it does not.
    Every accepted path is exactly `/op/id` with an identifier of letters and
    digits only.
   */
  function ValidPath(path: string): (r: Option<(Op, string)>)
    ensures r.Some? ==> IsId(r.value.1) && path == PathOf(r.value.0, r.value.1)
  {
    if |path| >= 7 && path[0] == '/' && path[5] == '/' then
      match ParseOp(path[1..5])
      case Some(op) =>
        var id := path[6..];
        if IsId(id) then
          assert path == PathOf(op, id);
          Some((op, id))
        else None
      case None => None
    else None
  }

  /** Every path of the form `/op/id` with a valid identifier is accepted, with its own groups. */
  lemma ValidPathAccepts(op: Op, id: string)
    requires IsId(id)
    ensures ValidPath(PathOf(op, id)) == Some((op, id))
  {
    var p := PathOf(op, id);
    assert p[1..5] == OpName(op);
    assert p[6..] == id;
  }

  /** The pattern accepts a path exactly when it is `/op/id` for some operation and identifier. */
  lemma ValidPathIff(path: string)
    ensures ValidPath(path).Some? <==> exists op, id :: IsId(id) && path == PathOf(op, id)
  {
    if exists op, id :: IsId(id) && path == PathOf(op, id) {
      var op, id :| IsId(id) && path == PathOf(op, id);
      ValidPathAccepts(op, id);
    }
  }

  /**
    An accepted identifier holds no `/`, `.` or `\`, so `id + ".txt"` names a
    file in the current directory: no path traversal reaches the store.
   */
  lemma AcceptedIdIsPlainName(path: string)
    requires ValidPath(path).Some?
    ensures var id := ValidPath(path).value.1;
            '/' !in id && '.' !in id && '\\' !in id && |id| > 0
  {
  }

  /** A trailing slash, or an extra segment, is rejected. */
  lemma ExtraSegmentRejected(op: Op, id: string, rest: string)
    ensures ValidPath(PathOf(op, id) + "/" + rest) == None
  {
    var p := PathOf(op, id) + "/" + rest;
    assert p[|p| - |rest| - 1] == '/';
  }

  /** An empty identifier is rejected: `/view/` is not a page path. */
  lemma EmptyIdRejected(op: Op)
    ensures ValidPath("/" + OpName(op) + "/") == None
  {
  }
}
