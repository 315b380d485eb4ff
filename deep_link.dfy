/**
 * The deep-link handling of the main process (src/main.js): `extractDataUrl`, the
 * classification of command-line arguments, and the two loops that store the extracted
 * URL in `deeplinkingUrl`.
 */
module DeepLink {
  import opened Wrappers
  import opened PercentCoding

  /** The literal part of the pattern `/vcc:\/\/vpm\/addRepo\?url=(.*)/`. */
  const Marker: string := "vcc://vpm/addRepo?url="
  const UrlFlag: string := "--vcc-url="
  const Scheme: string := "vcc://"

  // ---------------------------------------------------------------- string search

  predicate OccursAt(s: string, pat: string, i: nat) {
    i + |pat| <= |s| && s[i..i + |pat|] == pat
  }

  predicate IsFirstOccurrence(s: string, pat: string, i: nat) {
    OccursAt(s, pat, i) && forall j: nat :: j < i ==> !OccursAt(s, pat, j)
  }

  /** The leftmost position at or after `from` where `pat` occurs in `s`. */
  function IndexOf(s: string, pat: string, from: nat): (r: Option<nat>)
    ensures r.Some? ==> from <= r.value && OccursAt(s, pat, r.value)
    ensures r.Some? ==> forall j: nat :: from <= j < r.value ==> !OccursAt(s, pat, j)
    ensures r.None? ==> forall j: nat :: from <= j ==> !OccursAt(s, pat, j)
    decreases |s| - from
  {
    if from + |pat| > |s| then None
    else if s[from..from + |pat|] == pat then Some(from)
    else IndexOf(s, pat, from + 1)
  }

  /** The characters a regular-expression `.` does not match when the `s` flag is absent. */
  predicate IsLineTerminator(c: char) {
    c == '\n' || c == '\r' || c == '\U{2028}' || c == '\U{2029}'
  }

  /** What `(.*)` captures at the start of `s`: the longest prefix without a line terminator. */
  function TakeLine(s: string): (r: string)
    ensures r <= s
    ensures forall k :: 0 <= k < |r| ==> !IsLineTerminator(r[k])
    ensures |r| == |s| || IsLineTerminator(s[|r|])
  {
    if s == [] || IsLineTerminator(s[0]) then [] else [s[0]] + TakeLine(s[1..])
  }

  // ---------------------------------------------------------------- extractDataUrl

  /**
   * `extractDataUrl`: `Ok(None)` is `null`, `Ok(Some(u))` a decoded URL, and `Err` the
   * `URIError` that `decodeURIComponent` throws.
   */
  function ExtractDataUrl(s: string): (r: Result<Option<string>, UriError>)
    ensures r.Ok? && r.value.Some? ==> r.value.value != []
  {
    match IndexOf(s, Marker, 0)
    case None => Ok(None)
    case Some(i) =>
      var captured := TakeLine(s[i + |Marker|..]);
      if captured == [] then Ok(None)
      else
        match Decode(captured)
        case Ok(u) => Ok(Some(u))
        case Err(e) => Err(e)
  }

  // ---------------------------------------------------------------- String.prototype.split

  /** `s.split(sep)` for a one-character separator. */
  function Split(s: string, sep: char): (r: seq<string>)
    ensures |r| >= 1
    ensures forall k :: 0 <= k < |r| ==> sep !in r[k]
    ensures |r| == 1 <==> sep !in s
    ensures r[0] <= s && (|r[0]| == |s| || s[|r[0]|] == sep)
  {
    if s == [] then [[]]
    else
      var rest := Split(s[1..], sep);
      if s[0] == sep then [[]] + rest else [[s[0]] + rest[0]] + rest[1..]
  }

  /** `fields.join(sep)`, the inverse of `Split`. */
  function Join(fields: seq<string>, sep: char): string
    requires |fields| >= 1
  {
    if |fields| == 1 then fields[0] else fields[0] + [sep] + Join(fields[1..], sep)
  }

  // ---------------------------------------------------------------- arguments

  /** How one command-line argument is treated by the loops. */
  datatype ArgKind =
    | FlagArg(payload: string)  // `--vcc-url=<x>`: only `arg.split('=')[1]` is passed on
    | SchemeArg(url: string)    // `vcc://...`: the whole argument is passed on
    | OtherArg                  // ignored

  predicate StartsWith(s: string, prefix: string) {
    prefix <= s
  }

  function Classify(arg: string): (k: ArgKind)
    ensures k.FlagArg? <==> StartsWith(arg, UrlFlag)
    ensures StartsWith(arg, Scheme) ==> k == SchemeArg(arg)
    ensures k.OtherArg? <==> !StartsWith(arg, UrlFlag) && !StartsWith(arg, Scheme)
    ensures k.SchemeArg? ==> k.url == arg
  {
    if StartsWith(arg, UrlFlag) then
      assert arg[|UrlFlag| - 1] == '=';
      FlagArg(Split(arg, '=')[1])
    else if StartsWith(arg, Scheme) then SchemeArg(arg)
    else OtherArg
  }

  predicate Recognised(arg: string) {
    !Classify(arg).OtherArg?
  }

  /** What `extractDataUrl` gives for a recognised argument. */
  function Extracted(arg: string): Result<Option<string>, UriError>
    requires Recognised(arg)
  {
    match Classify(arg)
    case FlagArg(payload) => ExtractDataUrl(payload)
    case SchemeArg(url) => ExtractDataUrl(url)
  }

  /** The value `deeplinkingUrl` takes after the loop body runs on `arg`, or the error it throws. */
  function Step(current: Option<string>, arg: string): Result<Option<string>, UriError> {
    if Recognised(arg) then Extracted(arg) else Ok(current)
  }

  /**
   * The outcome of running the loop body over a list of arguments: the final value of
   * `deeplinkingUrl`, the value logged (and, for a second instance, sent to the window)
   * after each recognised argument, and the error that ended the loop early, if any.
   */
  datatype Trace = Trace(url: Option<string>, emitted: seq<Option<string>>, failure: Option<UriError>)

  function Run(current: Option<string>, args: seq<string>): Trace
    decreases |args|
  {
    if args == [] then Trace(current, [], None)
    else
      match Step(current, args[0])
      case Err(e) => Trace(current, [], Some(e))
      case Ok(next) =>
        var rest := Run(next, args[1..]);
        if Recognised(args[0]) then After([next], rest) else rest
  }

  /** `t` preceded by the values `earlier` emitted before it. */
  function After(earlier: seq<Option<string>>, t: Trace): Trace {
    Trace(t.url, earlier + t.emitted, t.failure)
  }

  /** One iteration of the loop: how `Run` over `args[i..]` continues from `args[i + 1..]`. */
  lemma RunStep(current: Option<string>, args: seq<string>, i: nat)
    requires i < |args|
    ensures Step(current, args[i]).Err? ==>
      Run(current, args[i..]) == Trace(current, [], Some(Step(current, args[i]).error))
    ensures Step(current, args[i]).Ok? && Recognised(args[i]) ==>
      var next := Step(current, args[i]).value;
      Run(current, args[i..]) == After([next], Run(next, args[i + 1..]))
    ensures !Recognised(args[i]) ==> Run(current, args[i..]) == Run(current, args[i + 1..])
  {
    assert args[i..][0] == args[i] && args[i..][1..] == args[i + 1..];
  }

  /** The main process's single piece of deep-link state. */
  class MainProcess {
    /** `deeplinkingUrl`; None stands for both `undefined` (its initial value) and `null`. */
    var deeplinkingUrl: Option<string>
    /** The values sent to the window on the `deeplinking-url` channel, oldest first. */
    var sent: seq<Option<string>>

    constructor ()
      ensures deeplinkingUrl == None && sent == []
    {
      deeplinkingUrl := None;
      sent := [];
    }

    /** The start-up loop over `process.argv.slice(1)`. */
    method StartUp(argv: seq<string>) returns (failure: Option<UriError>)
      modifies this
      ensures var t := Run(old(deeplinkingUrl), if argv == [] then [] else argv[1..]);
        deeplinkingUrl == t.url && failure == t.failure
      ensures sent == old(sent)
    {
      var args := if argv == [] then [] else argv[1..];
      failure := None;
      var i := 0;
      ghost var logged: seq<Option<string>> := [];
      while i < |args|
        invariant 0 <= i <= |args|
        invariant Run(old(deeplinkingUrl), args) == After(logged, Run(deeplinkingUrl, args[i..]))
        invariant sent == old(sent)
      {
        RunStep(deeplinkingUrl, args, i);
        if Recognised(args[i]) {
          var extracted := Extracted(args[i]);
          if extracted.Err? {
            failure := Some(extracted.error);
            return;
          }
          deeplinkingUrl := extracted.value;
          logged := logged + [deeplinkingUrl];
        }
        i := i + 1;
      }
    }

    /**
     * The `second-instance` handler: when the window exists, the same loop over the second
     * instance's command line, sending each new value to the window.
     */
    method SecondInstance(commandLine: seq<string>, windowOpen: bool) returns (failure: Option<UriError>)
      modifies this
      ensures !windowOpen ==> deeplinkingUrl == old(deeplinkingUrl) && sent == old(sent) && failure == None
      ensures windowOpen ==>
        var t := Run(old(deeplinkingUrl), commandLine);
        deeplinkingUrl == t.url && failure == t.failure && sent == old(sent) + t.emitted
    {
      failure := None;
      if !windowOpen {
        return;
      }
      var i := 0;
      ghost var emitted: seq<Option<string>> := [];
      while i < |commandLine|
        invariant 0 <= i <= |commandLine|
        invariant Run(old(deeplinkingUrl), commandLine) == After(emitted, Run(deeplinkingUrl, commandLine[i..]))
        invariant sent == old(sent) + emitted
      {
        RunStep(deeplinkingUrl, commandLine, i);
        if Recognised(commandLine[i]) {
          var extracted := Extracted(commandLine[i]);
          if extracted.Err? {
            failure := Some(extracted.error);
            return;
          }
          deeplinkingUrl := extracted.value;
          sent := sent + [deeplinkingUrl];
          emitted := emitted + [deeplinkingUrl];
        }
        i := i + 1;
      }
    }
  }

  // ---------------------------------------------------------------- properties of extractDataUrl

  lemma {:induction false} TakeLineExact(a: string, b: string)
    requires forall k :: 0 <= k < |a| ==> !IsLineTerminator(a[k])
    requires b == [] || IsLineTerminator(b[0])
    ensures TakeLine(a + b) == a
  {
    if a == [] {
      assert a + b == b;
    } else {
      assert (a + b)[0] == a[0] && (a + b)[1..] == a[1..] + b;
      TakeLineExact(a[1..], b);
      assert [a[0]] + a[1..] == a;
    }
  }

  /** The capture runs at least past a position reached without a line terminator. */
  lemma TakeLineReaches(a: string, m: nat)
    requires m < |a|
    requires forall k :: 0 <= k <= m ==> !IsLineTerminator(a[k])
    ensures m < |TakeLine(a)|
  {
    var r := |TakeLine(a)|;
    if r < |a| {
      assert IsLineTerminator(a[r]);
    }
  }

  lemma SliceAt(s: string, a: nat, b: nat)
    requires a <= b <= |s|
    ensures s[a..] == s[a..b] + s[b..]
  {
  }

  /** The search finds the first occurrence, wherever it is. */
  lemma FirstOccurrenceFound(s: string, pat: string, i: nat)
    requires IsFirstOccurrence(s, pat, i)
    ensures IndexOf(s, pat, 0) == Some(i)
  {
    var r := IndexOf(s, pat, 0);
    assert r.Some? ==> !(r.value < i) && !(i < r.value);
  }

  /**
   * The result is `null` exactly when the marker is absent, or when its first occurrence is
   * followed by the end of the string or by a line terminator (an empty capture).
   */
  lemma ExtractNullIff(s: string)
    ensures ExtractDataUrl(s) == Ok(None) <==>
      forall i: nat :: IsFirstOccurrence(s, Marker, i) ==>
        i + |Marker| == |s| || IsLineTerminator(s[i + |Marker|])
  {
    match IndexOf(s, Marker, 0)
    case None =>
    case Some(i) =>
      assert IsFirstOccurrence(s, Marker, i);
  }

  /**
   * When the marker first occurs at `i`, and `j` ends the line that follows it, a non-null
   * result is the percent-decoding of `s[i + |Marker|..j]`, and decoding errors propagate.
   */
  lemma ExtractDecodesCapture(s: string, i: nat, j: nat)
    requires IsFirstOccurrence(s, Marker, i)
    requires i + |Marker| < j <= |s|
    requires forall k :: i + |Marker| <= k < j ==> !IsLineTerminator(s[k])
    requires j == |s| || IsLineTerminator(s[j])
    ensures ExtractDataUrl(s) ==
      match Decode(s[i + |Marker|..j])
      case Ok(u) => Ok(Some(u))
      case Err(e) => Err(e)
  {
    var start := i + |Marker|;
    FirstOccurrenceFound(s, Marker, i);
    SliceAt(s, start, j);
    TakeLineExact(s[start..j], s[j..]);
  }

  /**
   * A `%` at `m` in the capture, not followed by two hexadecimal digits, makes it throw when
   * the capture before it decodes without error.
   */
  lemma ExtractTruncatedEscapeThrows(s: string, i: nat, m: nat)
    requires IsFirstOccurrence(s, Marker, i)
    requires i + |Marker| <= m < |s| && s[m] == '%'
    requires forall k :: i + |Marker| <= k < m ==> !IsLineTerminator(s[k])
    requires Decode(s[i + |Marker|..m]).Ok?
    requires m + 2 >= |s| || !IsHexDigit(s[m + 1]) || !IsHexDigit(s[m + 2])
    ensures ExtractDataUrl(s) == Err(MalformedUri)
  {
    var start := i + |Marker|;
    var j := CaptureEnd(s, start, m);
    ExtractDecodesCapture(s, i, j);
    TruncatedCaptureThrows(s, start, m, j);
  }

  /** The capture starting at `start` ends at `j`, past a position `m` reached without a line terminator. */
  lemma CaptureEnd(s: string, start: nat, m: nat) returns (j: nat)
    requires start <= m < |s| && !IsLineTerminator(s[m])
    requires forall k :: start <= k < m ==> !IsLineTerminator(s[k])
    ensures m < j <= |s|
    ensures forall k :: start <= k < j ==> !IsLineTerminator(s[k])
    ensures j == |s| || IsLineTerminator(s[j])
  {
    var rest := s[start..];
    var line := TakeLine(rest);
    j := start + |line|;
    assert forall k :: 0 <= k <= m - start ==> !IsLineTerminator(rest[k]) by {
      forall k | 0 <= k <= m - start
        ensures !IsLineTerminator(rest[k])
      {
        assert rest[k] == s[start + k];
      }
    }
    TakeLineReaches(rest, m - start);
    forall k | start <= k < j
      ensures !IsLineTerminator(s[k])
    {
      assert s[k] == line[k - start];
    }
  }

  lemma TruncatedCaptureThrows(s: string, start: nat, m: nat, j: nat)
    requires start <= m < j <= |s| && s[m] == '%'
    requires Decode(s[start..m]).Ok?
    requires m + 2 >= |s| || !IsHexDigit(s[m + 1]) || !IsHexDigit(s[m + 2])
    ensures Decode(s[start..j]) == Err(MalformedUri)
  {
    var p, q := s[start..m], s[m..j];
    assert s[start..j] == p + q;
    TruncatedEscapeThrows(p, q);
  }

  /**
   * Round trip: a deep link built from the percent-encoding of any non-empty `t`, followed
   * by nothing or by a new line, extracts to `t`.
   */
  lemma ExtractRoundTrip(t: string, rest: string)
    requires t != []
    requires rest == [] || IsLineTerminator(rest[0])
    ensures ExtractDataUrl(Marker + Encode(t) + rest) == Ok(Some(t))
  {
    var encoded := Encode(t);
    var s := Marker + encoded + rest;
    var j := |Marker| + |encoded|;
    assert s[..|Marker|] == Marker;
    assert s[|Marker|..j] == encoded;
    assert s[j..] == rest;
    forall k | |Marker| <= k < j
      ensures !IsLineTerminator(s[k])
    {
      assert s[k] == encoded[k - |Marker|];
      assert IsUnreserved(s[k]) || s[k] == '%' || IsHexDigit(s[k]);
    }
    ExtractDecodesCapture(s, 0, j);
    DecodeEncode(t);
  }

  // ---------------------------------------------------------------- properties of the arguments

  lemma JoinPrepend(c: char, fields: seq<string>, sep: char)
    requires |fields| >= 1
    ensures Join([[c] + fields[0]] + fields[1..], sep) == [c] + Join(fields, sep)
  {
    var r := [[c] + fields[0]] + fields[1..];
    assert r[0] == [c] + fields[0] && r[1..] == fields[1..];
    if |fields| > 1 {
      assert Join(r, sep) == ([c] + fields[0]) + [sep] + Join(fields[1..], sep);
    }
  }

  lemma {:induction false} SplitJoin(s: string, sep: char)
    ensures Join(Split(s, sep), sep) == s
  {
    if s != [] {
      var rest := Split(s[1..], sep);
      SplitJoin(s[1..], sep);
      if s[0] == sep {
        var r := [[]] + rest;
        assert r[0] == [] && r[1..] == rest;
        assert Join(r, sep) == [] + [sep] + Join(rest, sep);
      } else {
        JoinPrepend(s[0], rest, sep);
      }
      assert [s[0]] + s[1..] == s;
    }
  }

  /**
   * `arg.split('=')[1]` on a `--vcc-url=` argument is the text between its first and its
   * second `=`, or up to the end when there is no second `=`.
   */
  lemma FlagPayload(arg: string)
    requires StartsWith(arg, UrlFlag)
    ensures Classify(arg).FlagArg?
    ensures var p := Classify(arg).payload; var after := arg[|UrlFlag|..];
      p <= after && '=' !in p && (|p| == |after| || after[|p|] == '=')
  {
    var r := Split(arg, '=');
    FlagFields(arg);
    JoinFirstField(r[1..], '=');
  }

  /** The fields after the first rebuild what follows `--vcc-url=`. */
  lemma FlagFields(arg: string)
    requires StartsWith(arg, UrlFlag)
    ensures |Split(arg, '=')| >= 2
    ensures Join(Split(arg, '=')[1..], '=') == arg[|UrlFlag|..]
  {
    var r := Split(arg, '=');
    var n := |UrlFlag| - 1;
    SplitJoin(arg, '=');
    assert arg[..|UrlFlag|] == UrlFlag;
    assert forall k :: 0 <= k < n ==> arg[k] == UrlFlag[k] && UrlFlag[k] != '=';
    assert arg[n] == '=';
    assert r[0] == arg[..n];
    assert Join(r, '=') == r[0] + ['='] + Join(r[1..], '=');
  }

  /** The first of fields free of `sep` is what precedes the first `sep` of their join. */
  lemma JoinFirstField(q: seq<string>, sep: char)
    requires |q| >= 1 && sep !in q[0]
    ensures q[0] <= Join(q, sep)
    ensures |q[0]| == |Join(q, sep)| || Join(q, sep)[|q[0]|] == sep
  {
    if |q| > 1 {
      assert Join(q, sep) == q[0] + [sep] + Join(q[1..], sep);
    }
  }

  /**
   * A `--vcc-url=` argument always sets `deeplinkingUrl` to `null`: its payload holds no `=`,
   * so it can never contain the marker, which ends in `=`.
   */
  lemma FlagNeverYieldsUrl(current: Option<string>, arg: string)
    requires StartsWith(arg, UrlFlag)
    ensures Step(current, arg) == Ok(None)
  {
    assert arg[|UrlFlag| - 1] == '=' && arg[|UrlFlag| - 1] in arg;
    var p := Classify(arg).payload;
    assert p == Split(arg, '=')[1];
    forall i: nat
      ensures !OccursAt(p, Marker, i)
    {
      if i + |Marker| <= |p| {
        assert p[i..i + |Marker|][|Marker| - 1] == p[i + |Marker| - 1];
      }
    }
  }

  // ---------------------------------------------------------------- properties of the loops

  /** The index of the last recognised argument, if any. */
  function LastRecognised(args: seq<string>): (r: Option<nat>)
    ensures r.Some? ==> r.value < |args| && Recognised(args[r.value])
    ensures r.Some? ==> forall k :: r.value < k < |args| ==> !Recognised(args[k])
    ensures r.None? ==> forall k :: 0 <= k < |args| ==> !Recognised(args[k])
  {
    if args == [] then None
    else
      assert forall k :: 0 < k < |args| ==> args[k] == args[1..][k - 1];
      match LastRecognised(args[1..])
      case Some(k) => Some(k + 1)
      case None => if Recognised(args[0]) then Some(0) else None
  }

  /**
   * When no recognised argument makes `extractDataUrl` throw, the loop completes and leaves
   * `deeplinkingUrl` equal to the extraction of the last recognised argument, or unchanged
   * when no argument is recognised.
   */
  lemma {:induction false} RunKeepsLastRecognised(current: Option<string>, args: seq<string>)
    requires forall k :: 0 <= k < |args| && Recognised(args[k]) ==> Extracted(args[k]).Ok?
    ensures Run(current, args).failure == None
    ensures Run(current, args).url ==
      match LastRecognised(args)
      case None => current
      case Some(k) => Extracted(args[k]).value
    decreases |args|
  {
    if args != [] {
      var next := Step(current, args[0]).value;
      var tail := args[1..];
      assert forall k :: 0 <= k < |tail| ==> tail[k] == args[k + 1];
      RunKeepsLastRecognised(next, tail);
      assert tail == args[1..];
    }
  }

  /**
   * When the argument at `k` is the first recognised one whose extraction throws, the loop
   * stops there with that error; `deeplinkingUrl` and what was emitted are as after the
   * arguments before `k`.
   */
  lemma {:induction false} RunStopsAtFirstThrow(current: Option<string>, args: seq<string>, k: nat)
    requires k < |args| && Recognised(args[k]) && Extracted(args[k]).Err?
    requires forall j :: 0 <= j < k && Recognised(args[j]) ==> Extracted(args[j]).Ok?
    ensures Run(current, args).failure == Some(Extracted(args[k]).error)
    ensures Run(current, args).url == Run(current, args[..k]).url
    ensures Run(current, args).emitted == Run(current, args[..k]).emitted
    decreases k
  {
    if k > 0 {
      var next := Step(current, args[0]).value;
      assert args[1..][k - 1] == args[k];
      assert forall j :: 0 <= j < k - 1 ==> args[1..][j] == args[j + 1];
      RunStopsAtFirstThrow(next, args[1..], k - 1);
      assert args[..k][0] == args[0] && args[..k][1..] == args[1..][..k - 1];
    }
  }

  /**
   * The last value emitted is the final `deeplinkingUrl`; when nothing was emitted,
   * `deeplinkingUrl` is unchanged.
   */
  lemma {:induction false} LastEmittedIsFinal(current: Option<string>, args: seq<string>)
    ensures var t := Run(current, args); t.emitted != [] ==> t.emitted[|t.emitted| - 1] == t.url
    ensures var t := Run(current, args); t.emitted == [] ==> t.url == current
    decreases |args|
  {
    if args != [] && Step(current, args[0]).Ok? {
      LastEmittedIsFinal(Step(current, args[0]).value, args[1..]);
    }
  }
}
