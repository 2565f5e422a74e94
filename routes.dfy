/** Client-side route matching: a pattern such as `/user/:id` or `/any/*` is compared with
    the current path segment by segment. The path and the URI decoder are inputs; the
    outcome is the argument the handler is called with, if it is called at all. */
module Routes {
  import opened Wrappers
  import opened JsText

  // ---------------------------------------------------------------------------------
  // Splitting at `/`

  /** `s.split("/")`: the pieces between slashes, at least one. */
  function Split(s: string): (r: seq<string>)
    ensures |r| >= 1
    decreases |s|
  {
    if |s| == 0 then [""]
    else
      var rest := Split(s[1..]);
      if s[0] == '/' then [""] + rest else [[s[0]] + rest[0]] + rest[1..]
  }

  /** `parts.join("/")`. */
  function Join(parts: seq<string>): string
    requires |parts| >= 1
    decreases |parts|
  {
    if |parts| == 1 then parts[0] else parts[0] + "/" + Join(parts[1..])
  }

  /** Joining the pieces with `/` gives the string back. */
  lemma {:induction false} SplitJoin(s: string)
    ensures Join(Split(s)) == s
    decreases |s|
  {
    if |s| > 0 {
      var rest := Split(s[1..]);
      SplitJoin(s[1..]);
      if s[0] == '/' {
        assert Join([""] + rest) == "" + "/" + Join(rest) by {
          assert ([""] + rest)[1..] == rest;
        }
        assert s == [s[0]] + s[1..];
      } else {
        var r := [[s[0]] + rest[0]] + rest[1..];
        if |rest| == 1 {
          assert Join(r) == [s[0]] + rest[0];
        } else {
          assert r[1..] == rest[1..];
          assert Join(rest) == rest[0] + "/" + Join(rest[1..]);
          assert Join(r) == [s[0]] + rest[0] + "/" + Join(rest[1..]);
        }
        assert s == [s[0]] + s[1..];
      }
    }
  }

  /** No piece holds a slash. */
  lemma {:induction false} SplitNoSlash(s: string)
    ensures forall k :: 0 <= k < |Split(s)| ==> '/' !in Split(s)[k]
    decreases |s|
  {
    if |s| > 0 {
      SplitNoSlash(s[1..]);
      var rest := Split(s[1..]);
      if s[0] != '/' {
        var r := [[s[0]] + rest[0]] + rest[1..];
        assert forall k :: 1 <= k < |r| ==> r[k] == rest[k];
        assert '/' !in rest[0];
      } else {
        assert forall k :: 1 <= k < |[""] + rest| ==> ([""] + rest)[k] == rest[k - 1];
      }
    }
  }

  // ---------------------------------------------------------------------------------
  // Matching

  /** `decodeURIComponent` throws a `URIError` on a malformed escape. */
  datatype RouteError = UriError

  /** What `route` does: `Success(None)` when the handler is not called, `Success(Some(p))`
      when it is called once with the parameters `p`, `Failure` when decoding throws. */
  type Outcome = Result<Option<map<string, string>>, RouteError>

  /** The loop of `route` from segment `i`, with the parameters captured so far. A call
      keeps every parameter captured before, and each of its values is either an earlier
      one or a non-empty decoded segment. */
  function MatchFrom(paths: seq<string>, args: seq<string>, decode: string -> Option<string>, i: nat,
                     params: map<string, string>): (r: Outcome)
    ensures r.Success? && r.value.Some? ==> params.Keys <= r.value.value.Keys
    ensures r.Success? && r.value.Some? ==>
      forall k :: k in r.value.value ==> (k in params && r.value.value[k] == params[k]) || r.value.value[k] != ""
    decreases |paths| - i
  {
    if i >= |paths| then
      if |paths| != |args| then Success(None) else Success(Some(params))
    else if i >= |args| then Success(None)
    else
      match decode(paths[i])
      case None => Failure(UriError)
      case Some(split) =>
        var arg := args[i];
        if StartsWith(arg, ":") then
          if split == "" then Success(None) else MatchFrom(paths, args, decode, i + 1, params[arg[1..] := split])
        else if arg == "*" then Success(Some(params))
        else if arg != split then Success(None)
        else MatchFrom(paths, args, decode, i + 1, params)
  }

  /** `route(pattern, handler)` with `window.location.pathname` passed in. */
  method Route(pattern: string, pathname: string, decode: string -> Option<string>) returns (r: Outcome)
    ensures r == MatchFrom(Split(pathname), Split(pattern), decode, 0, map[])
  {
    var pathSplits := Split(pathname);
    var args := Split(pattern);
    var params: map<string, string> := map[];
    for i := 0 to |pathSplits|
      invariant MatchFrom(pathSplits, args, decode, i, params) == MatchFrom(pathSplits, args, decode, 0, map[])
    {
      if i >= |args| {
        return Success(None);
      }
      var d := decode(pathSplits[i]);
      if d.None? {
        return Failure(UriError);
      }
      var split := d.value;
      var arg := args[i];
      if StartsWith(arg, ":") {
        if split == "" {
          return Success(None);
        }
        var name := arg[1..];
        params := params[name := split];
      } else if arg == "*" {
        return Success(Some(params));
      } else if arg != split {
        return Success(None);
      }
    }
    if |pathSplits| != |args| {
      return Success(None);
    }
    return Success(Some(params));
  }

  // ---------------------------------------------------------------------------------
  // What a match means

  /** A segment the loop passes: a parameter with a non-empty value, or a literal equal to
      the decoded path segment. */
  predicate SegmentOk(arg: string, split: string) {
    if StartsWith(arg, ":") then split != "" else arg != "*" && arg == split
  }

  /** Segments `i` to `k` all decode and pass. */
  predicate PassedBetween(paths: seq<string>, args: seq<string>, decode: string -> Option<string>, i: nat, k: nat) {
    && k <= |paths| && k <= |args|
    && forall m :: i <= m < k ==> decode(paths[m]).Some? && SegmentOk(args[m], decode(paths[m]).value)
  }

  /** The parameters captured over segments `i` to `k`, a later name overriding an earlier one. */
  function Capture(paths: seq<string>, args: seq<string>, decode: string -> Option<string>, i: nat, k: nat,
                   params: map<string, string>): map<string, string>
    requires PassedBetween(paths, args, decode, i, k)
    decreases k - i
  {
    if i >= k then params
    else
      var split := decode(paths[i]).value;
      var params' := if StartsWith(args[i], ":") then params[args[i][1..] := split] else params;
      Capture(paths, args, decode, i + 1, k, params')
  }

  /** Passing segments `i` to `k` leaves the loop at `k` with their captures. */
  lemma {:induction false} MatchPassed(paths: seq<string>, args: seq<string>, decode: string -> Option<string>,
                                       i: nat, k: nat, params: map<string, string>)
    requires i <= k && PassedBetween(paths, args, decode, i, k)
    ensures MatchFrom(paths, args, decode, i, params)
            == MatchFrom(paths, args, decode, k, Capture(paths, args, decode, i, k, params))
    decreases k - i
  {
    if i < k {
      var split := decode(paths[i]).value;
      var params' := if StartsWith(args[i], ":") then params[args[i][1..] := split] else params;
      assert PassedBetween(paths, args, decode, i + 1, k);
      MatchPassed(paths, args, decode, i + 1, k, params');
    }
  }

  /** Literal segments capture nothing. */
  lemma {:induction false} CaptureLiterals(paths: seq<string>, args: seq<string>, decode: string -> Option<string>,
                                           i: nat, k: nat, params: map<string, string>)
    requires PassedBetween(paths, args, decode, i, k)
    requires forall m :: i <= m < k ==> !StartsWith(args[m], ":")
    ensures Capture(paths, args, decode, i, k, params) == params
    decreases k - i
  {
    if i < k {
      CaptureLiterals(paths, args, decode, i + 1, k, params);
    }
  }

  /** A `:name` segment stores its decoded path segment under `name`, unless a later
      segment of the same name overrides it. */
  lemma {:induction false} CaptureParam(paths: seq<string>, args: seq<string>, decode: string -> Option<string>,
                                        i: nat, k: nat, params: map<string, string>, m: nat, name: string)
    requires PassedBetween(paths, args, decode, i, k) && i <= m < k
    requires args[m] == ":" + name
    requires forall n :: m < n < k ==> args[n] != ":" + name
    ensures name in Capture(paths, args, decode, i, k, params)
    ensures Capture(paths, args, decode, i, k, params)[name] == decode(paths[m]).value
    ensures Capture(paths, args, decode, i, k, params)[name] != ""
    decreases k - i
  {
    var split := decode(paths[i]).value;
    var params' := if StartsWith(args[i], ":") then params[args[i][1..] := split] else params;
    assert PassedBetween(paths, args, decode, i + 1, k);
    if i == m {
      assert StartsWith(args[m], ":") && args[m][1..] == name;
      CaptureKeeps(paths, args, decode, i + 1, k, params', name);
    } else {
      CaptureParam(paths, args, decode, i + 1, k, params', m, name);
    }
  }

  /** A name no segment between `i` and `k` binds keeps its value. */
  lemma {:induction false} CaptureKeeps(paths: seq<string>, args: seq<string>, decode: string -> Option<string>,
                                        i: nat, k: nat, params: map<string, string>, name: string)
    requires PassedBetween(paths, args, decode, i, k) && name in params
    requires forall n :: i <= n < k ==> args[n] != ":" + name
    ensures name in Capture(paths, args, decode, i, k, params)
    ensures Capture(paths, args, decode, i, k, params)[name] == params[name]
    decreases k - i
  {
    if i < k {
      var split := decode(paths[i]).value;
      var params' := if StartsWith(args[i], ":") then params[args[i][1..] := split] else params;
      if StartsWith(args[i], ":") {
        assert args[i] == ":" + args[i][1..];
        assert args[i][1..] != name;
      }
      assert PassedBetween(paths, args, decode, i + 1, k);
      CaptureKeeps(paths, args, decode, i + 1, k, params', name);
    }
  }

  /** With neither `:` nor `*` segments, the route matches, with no parameters, exactly when
      the decoded path equals the pattern segment for segment; it never matches otherwise. */
  lemma LiteralRoute(paths: seq<string>, args: seq<string>, decode: string -> Option<string>)
    requires forall m :: 0 <= m < |args| ==> !StartsWith(args[m], ":") && args[m] != "*"
    requires forall m :: 0 <= m < |paths| ==> decode(paths[m]).Some?
    ensures var r := MatchFrom(paths, args, decode, 0, map[]);
      && (r == Success(Some(map[])) <==> |paths| == |args| && forall m :: 0 <= m < |paths| ==> decode(paths[m]).value == args[m])
      && (r != Success(Some(map[])) ==> r == Success(None))
  {
    var k := FirstMismatch(paths, args, decode, 0);
    assert PassedBetween(paths, args, decode, 0, k);
    MatchPassed(paths, args, decode, 0, k, map[]);
    CaptureLiterals(paths, args, decode, 0, k, map[]);
    if k < |paths| && k < |args| {
      assert decode(paths[k]).value != args[k];
    }
  }

  /** The first segment from `i` on where the decoded path and a literal pattern part, or
      the end of either. */
  function FirstMismatch(paths: seq<string>, args: seq<string>, decode: string -> Option<string>, i: nat): (k: nat)
    requires i <= |paths| && i <= |args|
    requires forall m :: 0 <= m < |args| ==> !StartsWith(args[m], ":") && args[m] != "*"
    requires forall m :: 0 <= m < |paths| ==> decode(paths[m]).Some?
    ensures i <= k <= |paths| && k <= |args|
    ensures forall m :: i <= m < k ==> decode(paths[m]).value == args[m]
    ensures k < |paths| && k < |args| ==> decode(paths[k]).value != args[k]
    ensures k == |paths| || k == |args| || decode(paths[k]).value != args[k]
    decreases |paths| - i
  {
    if i == |paths| || i == |args| || decode(paths[i]).value != args[i] then i
    else FirstMismatch(paths, args, decode, i + 1)
  }

  /** Reaching a `*` segment, with every segment before it passed, calls the handler at once
      with the parameters captured so far, whatever path segments remain. */
  lemma Wildcard(paths: seq<string>, args: seq<string>, decode: string -> Option<string>, k: nat)
    requires k < |paths| && k < |args| && args[k] == "*" && decode(paths[k]).Some?
    requires PassedBetween(paths, args, decode, 0, k)
    ensures MatchFrom(paths, args, decode, 0, map[]) == Success(Some(Capture(paths, args, decode, 0, k, map[])))
  {
    MatchPassed(paths, args, decode, 0, k, map[]);
    assert !StartsWith("*", ":");
  }

  /** A `:name` segment over an empty path segment stops the match. */
  lemma EmptyParam(paths: seq<string>, args: seq<string>, decode: string -> Option<string>, k: nat)
    requires k < |paths| && k < |args| && StartsWith(args[k], ":") && decode(paths[k]) == Some("")
    requires PassedBetween(paths, args, decode, 0, k)
    ensures MatchFrom(paths, args, decode, 0, map[]) == Success(None)
  {
    MatchPassed(paths, args, decode, 0, k, map[]);
  }

  /** When every segment passes and the lengths agree, the handler gets the captures; in
      particular each `:name` holds the decoded segment at its own index (the last one of
      that name). */
  lemma FullMatch(paths: seq<string>, args: seq<string>, decode: string -> Option<string>, m: nat, name: string)
    requires |paths| == |args| && PassedBetween(paths, args, decode, 0, |paths|)
    requires m < |args| && args[m] == ":" + name
    requires forall n :: m < n < |args| ==> args[n] != ":" + name
    ensures var r := MatchFrom(paths, args, decode, 0, map[]);
      && r.Success? && r.value.Some? && name in r.value.value
      && r.value.value[name] == decode(paths[m]).value != ""
  {
    MatchPassed(paths, args, decode, 0, |paths|, map[]);
    CaptureParam(paths, args, decode, 0, |paths|, map[], m, name);
  }

  /** Unless a `*` segment is reached, a path and a pattern of different lengths never call
      the handler: extra path segments fail, and so do extra pattern segments, `*` included. */
  lemma {:induction false} LengthMismatch(paths: seq<string>, args: seq<string>, decode: string -> Option<string>,
                                          i: nat, params: map<string, string>)
    requires |paths| != |args|
    requires forall m :: i <= m < |paths| && m < |args| ==> args[m] != "*"
    ensures var r := MatchFrom(paths, args, decode, i, params); !(r.Success? && r.value.Some?)
    decreases |paths| - i
  {
    if i < |paths| && i < |args| && decode(paths[i]).Some? {
      var split := decode(paths[i]).value;
      var arg := args[i];
      if StartsWith(arg, ":") && split != "" {
        LengthMismatch(paths, args, decode, i + 1, params[arg[1..] := split]);
      } else if !StartsWith(arg, ":") && arg == split {
        LengthMismatch(paths, args, decode, i + 1, params);
      }
    }
  }
}
