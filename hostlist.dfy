/** The plain-text host list `search` returns for `format=hostlist`: one
    line per result, the address alone or the address and scan id separated
    by a comma. */
module Hostlist {
  import Text

  /** The two fields of a search hit this output reads. */
  datatype Host = Host(ip: string, scanId: string)

  function Line(h: Host, withIds: bool): string
  {
    if withIds then h.ip + "," + h.scanId else h.ip
  }

  function Lines(hosts: seq<Host>, withIds: bool): seq<string>
  {
    seq(|hosts|, k requires 0 <= k < |hosts| => Line(hosts[k], withIds))
  }

  /** Scan ids are included when the `includeScanIDs` argument is a
      non-empty string. */
  function Render(hosts: seq<Host>, includeScanIds: string): string
  {
    Text.Join(Lines(hosts, includeScanIds != ""), '\n')
  }

  /** The append loop that builds the list, then the join. */
  method FormatHostlist(hosts: seq<Host>, includeScanIds: string) returns (body: string)
    ensures body == Render(hosts, includeScanIds)
  {
    var hostlist: seq<string> := [];
    for i := 0 to |hosts|
      invariant |hostlist| == i
      invariant forall k :: 0 <= k < i ==> hostlist[k] == Line(hosts[k], includeScanIds != "")
    {
      if includeScanIds != "" {
        hostlist := hostlist + [hosts[i].ip + "," + hosts[i].scanId];
      } else {
        hostlist := hostlist + [hosts[i].ip];
      }
    }
    assert hostlist == Lines(hosts, includeScanIds != "");
    body := Text.Join(hostlist, '\n');
  }

  predicate SingleLine(hosts: seq<Host>)
  {
    forall k :: 0 <= k < |hosts| ==> '\n' !in hosts[k].ip && '\n' !in hosts[k].scanId
  }

  /** When no address or scan id contains a newline, the body has exactly one
      line per host, in input order. */
  lemma OneLinePerHost(hosts: seq<Host>, includeScanIds: string)
    requires |hosts| > 0 && SingleLine(hosts)
    ensures Text.Split(Render(hosts, includeScanIds), '\n') == Lines(hosts, includeScanIds != "")
    ensures |Text.Split(Render(hosts, includeScanIds), '\n')| == |hosts|
  {
    var lines := Lines(hosts, includeScanIds != "");
    forall k | 0 <= k < |lines| ensures '\n' !in lines[k] {
      assert lines[k] == Line(hosts[k], includeScanIds != "");
      if includeScanIds != "" {
        var s := lines[k];
        var h := hosts[k];
        forall j | 0 <= j < |s| ensures s[j] != '\n' {
          if j < |h.ip| {
            assert s[j] == h.ip[j];
          } else if j > |h.ip| {
            assert s[j] == h.scanId[j - |h.ip| - 1];
          }
        }
      }
    }
    Text.SplitJoin(lines, '\n');
  }

  /** A line with scan ids splits on its comma back into address and scan id,
      when neither contains a comma. */
  lemma LineFields(h: Host)
    requires ',' !in h.ip && ',' !in h.scanId
    ensures Text.Split(Line(h, true), ',') == [h.ip, h.scanId]
  {
    Text.SplitJoin([h.ip, h.scanId], ',');
    assert Text.Join([h.ip, h.scanId], ',') == Line(h, true);
  }

  /** No hits give an empty body. */
  lemma EmptyHostlist(includeScanIds: string)
    ensures Render([], includeScanIds) == ""
  {
  }
}
