/**
 * The argument vector of the `nuclei` process started by a scan: the output
 * file, one target URL (`-u`) or a file listing the targets (`-l`), one
 * `-t` per selected template and, when the proxy is switched on and filled
 * in, `-p` with the proxy.
 */
module ScanArgs {
  import opened Wrappers
  import opened Strings

  /** What the scan is run against. */
  datatype Target = Url(url: string) | ListFile(path: string)

  /** Everything a scan command carries. */
  datatype Request = Request(output: string, target: Target, templates: seq<string>, proxy: Option<string>)

  /**
   * The proxy passed on: the trimmed entry, when the checkbox is on and the
   * entry is not blank. A proxy that is passed on is non-empty and has no
   * surrounding whitespace.
   */
  function ProxyArg(enabled: bool, entry: string): (p: Option<string>)
    ensures p.None? <==> !enabled || AllSpace(entry)
    ensures p.Some? ==> p.value == Strip(entry) && p.value != "" && Strip(p.value) == p.value
  {
    StripSpec(entry);
    StripIdempotent(entry);
    if enabled && Strip(entry) != "" then Some(Strip(entry)) else None
  }

  function TargetArgs(t: Target): seq<string> {
    match t
    case Url(u) => ["-u", u]
    case ListFile(p) => ["-l", p]
  }

  /** `-t` followed by the template, for each template in order. */
  function TemplateArgs(templates: seq<string>): seq<string>
    decreases |templates|
  {
    if templates == [] then [] else ["-t", templates[0]] + TemplateArgs(templates[1..])
  }

  function ProxyArgs(proxy: Option<string>): seq<string> {
    match proxy
    case None => []
    case Some(p) => ["-p", p]
  }

  /** The command line of a scan request. */
  function CommandLine(r: Request): seq<string> {
    ["nuclei", "-o", r.output] + TargetArgs(r.target) + TemplateArgs(r.templates) + ProxyArgs(r.proxy)
  }

  /** The templates and the proxy read back from the tail of a command line. */
  function ParseOptions(args: seq<string>): Option<(seq<string>, Option<string>)>
    decreases |args|
  {
    if args == [] then Some(([], None))
    else if |args| == 2 && args[0] == "-p" then Some(([], Some(args[1])))
    else if |args| >= 2 && args[0] == "-t" then
      match ParseOptions(args[2..])
      case None => None
      case Some((ts, p)) => Some(([args[1]] + ts, p))
    else None
  }

  /** A command line read back as a scan request, or `None` when it is not one. */
  function ParseCommand(cmd: seq<string>): Option<Request> {
    if |cmd| < 5 || cmd[0] != "nuclei" || cmd[1] != "-o" || !(cmd[3] == "-u" || cmd[3] == "-l") then None
    else
      var target := if cmd[3] == "-u" then Url(cmd[4]) else ListFile(cmd[4]);
      match ParseOptions(cmd[5..])
      case None => None
      case Some((ts, p)) => Some(Request(cmd[2], target, ts, p))
  }

  lemma {:induction false} ParseOptionsInverse(templates: seq<string>, proxy: Option<string>)
    ensures ParseOptions(TemplateArgs(templates) + ProxyArgs(proxy)) == Some((templates, proxy))
    decreases |templates|
  {
    var args := TemplateArgs(templates) + ProxyArgs(proxy);
    if templates != [] {
      ParseOptionsInverse(templates[1..], proxy);
      assert args == ["-t", templates[0]] + (TemplateArgs(templates[1..]) + ProxyArgs(proxy));
      assert args[2..] == TemplateArgs(templates[1..]) + ProxyArgs(proxy);
      assert [templates[0]] + templates[1..] == templates;
    } else {
      assert args == ProxyArgs(proxy);
    }
  }

  /**
   * The command line says everything about the request: reading it back
   * gives the request, so two different requests never give the same
   * command line.
   */
  lemma ParseCommandLine(r: Request)
    ensures ParseCommand(CommandLine(r)) == Some(r)
  {
    var cmd := CommandLine(r);
    var rest := TemplateArgs(r.templates) + ProxyArgs(r.proxy);
    assert cmd == ["nuclei", "-o", r.output] + TargetArgs(r.target) + rest;
    assert cmd[5..] == rest;
    ParseOptionsInverse(r.templates, r.proxy);
  }

  lemma {:induction false} TemplateArgsAppend(a: seq<string>, b: seq<string>)
    ensures TemplateArgs(a + b) == TemplateArgs(a) + TemplateArgs(b)
    decreases |a|
  {
    if a == [] {
      assert a + b == b;
    } else {
      TemplateArgsAppend(a[1..], b);
      assert (a + b)[1..] == a[1..] + b;
    }
  }

  /**
   * The `cmd` list built in `start_single_scan`, `start_batch_scan_selected`
   * and `start_batch_scan`: the fixed head, one `extend` per template, then
   * the proxy.
   */
  method BuildCommand(output: string, target: Target, templates: seq<string>,
                      proxyEnabled: bool, proxyEntry: string) returns (cmd: seq<string>)
    ensures cmd == CommandLine(Request(output, target, templates, ProxyArg(proxyEnabled, proxyEntry)))
    ensures ParseCommand(cmd) == Some(Request(output, target, templates, ProxyArg(proxyEnabled, proxyEntry)))
  {
    var head := ["nuclei", "-o", output] + TargetArgs(target);
    cmd := head;
    for i := 0 to |templates|
      invariant cmd == head + TemplateArgs(templates[..i])
    {
      TemplateArgsAppend(templates[..i], [templates[i]]);
      assert templates[..i + 1] == templates[..i] + [templates[i]];
      assert TemplateArgs([templates[i]]) == ["-t", templates[i]];
      cmd := cmd + ["-t", templates[i]];
    }
    assert templates[..|templates|] == templates;
    if proxyEnabled {
      var proxyUrl := Strip(proxyEntry);
      if proxyUrl != "" {
        cmd := cmd + ["-p", proxyUrl];
      }
    }
    ParseCommandLine(Request(output, target, templates, ProxyArg(proxyEnabled, proxyEntry)));
  }
}
