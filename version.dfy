/** `determine_data_version`: which versioned host template a scan result is
    rendered with, chosen from the result's `agent_version`. */
module DataVersion {
  import opened Wrappers
  import Text
  import PyInt

  /** The last release before versioned host templates; older or unversioned
      results "fall up" to it. */
  const Fallback := "0.6.4"

  /** The exceptions the function lets escape: `int` on a component that is
      not a number, and indexing past the end of the component list. */
  datatype VersionError = ValueError | IndexError

  /** Each component through `int`. */
  function Converted(parts: seq<string>): (conv: seq<Option<int>>)
    ensures |conv| == |parts|
  {
    seq(|parts|, k requires 0 <= k < |parts| => PyInt.ParseInt(parts[k]))
  }

  /** The numbers, or `ValueError` for the first component that is not
      one. */
  function Collect(conv: seq<Option<int>>): (r: Result<seq<int>, VersionError>)
    ensures r.Ok? <==> forall k :: 0 <= k < |conv| ==> conv[k].Some?
    ensures r.Ok? ==> |r.value| == |conv|
    ensures r.Err? ==> r.error == ValueError
  {
    if |conv| == 0 then Ok([])
    else
      match Collect(conv[..|conv| - 1])
      case Err(e) => Err(e)
      case Ok(nums) =>
        match conv[|conv| - 1]
        case None => Err(ValueError)
        case Some(n) => Ok(nums + [n])
  }

  /** The loop that replaces every component by `int(component)`; the first
      component that does not parse raises `ValueError`. */
  function ParseAll(parts: seq<string>): (r: Result<seq<int>, VersionError>)
    ensures r.Ok? <==> forall k :: 0 <= k < |parts| ==> PyInt.ParseInt(parts[k]).Some?
    ensures r.Ok? ==> |r.value| == |parts|
    ensures r.Err? ==> r.error == ValueError
  {
    var conv := Converted(parts);
    assert forall k :: 0 <= k < |parts| ==> conv[k] == PyInt.ParseInt(parts[k]);
    Collect(conv)
  }

  /** The comparison on the parsed components: the minor part decides, the
      patch part is read only when the minor part is 6, the major part is
      never read. */
  function FromParts(version: string, nums: seq<int>): (r: Result<string, VersionError>)
    ensures r.Ok? ==> r.value == Fallback || r.value == version
    ensures r.Err? <==> |nums| < 2 || (nums[1] == 6 && |nums| < 3)
    ensures r.Err? ==> r.error == IndexError
  {
    if |nums| < 2 then Err(IndexError)
    else if nums[1] < 6 then Ok(Fallback)
    else if nums[1] == 6 then
      if |nums| < 3 then Err(IndexError)
      else if nums[2] < 4 then Ok(Fallback)
      else Ok(version)
    else Ok(version)
  }

  /** The template version for a result whose `agent_version` key holds
      `agentVersion` (`None` when the key is absent). */
  function DataVersion(agentVersion: Option<string>): (r: Result<string, VersionError>)
    ensures r.Ok? ==> r.value == Fallback || (agentVersion.Some? && r.value == agentVersion.value)
    ensures agentVersion.None? ==> r == Ok(Fallback)
  {
    match agentVersion
    case None => Ok(Fallback)
    case Some(v) =>
      match ParseAll(Text.Split(v, '.'))
      case Err(e) => Err(e)
      case Ok(nums) => FromParts(v, nums)
  }

  /** The loop that converts the split components in place, one `int` call
      each, stopping at the first that raises. */
  method ParseComponents(parts: seq<string>) returns (r: Result<seq<int>, VersionError>)
    ensures r == ParseAll(parts)
  {
    ghost var conv := Converted(parts);
    var verlist := new int[|parts|];
    for idx := 0 to |parts|
      invariant Collect(conv[..idx]) == Ok(verlist[..idx])
    {
      var n := PyInt.ParseInt(parts[idx]);
      CollectSnoc(conv, idx);
      if n.None? {
        CollectPrefixError(conv, idx + 1);
        return Err(ValueError);
      }
      verlist[idx] := n.value;
      assert verlist[..idx + 1] == verlist[..idx] + [n.value];
    }
    assert conv[..|parts|] == conv;
    assert verlist[..] == verlist[..|parts|];
    return Ok(verlist[..]);
  }

  /** One more component: its number is appended, or it raises. */
  lemma CollectSnoc(conv: seq<Option<int>>, i: nat)
    requires i < |conv|
    ensures Collect(conv[..i + 1]) ==
      match Collect(conv[..i])
      case Err(e) => Err(e)
      case Ok(nums) =>
        match conv[i]
        case None => Err(ValueError)
        case Some(n) => Ok(nums + [n])
  {
    assert conv[..i + 1][..i] == conv[..i];
  }

  /** The route helper as written: split, convert, then compare the minor
      and patch parts. */
  method DetermineDataVersion(agentVersion: Option<string>) returns (r: Result<string, VersionError>)
    ensures r == DataVersion(agentVersion)
  {
    if agentVersion.None? {
      return Ok(Fallback);
    }
    var version := agentVersion.value;
    var parsed := ParseComponents(Text.Split(version, '.'));
    if parsed.Err? {
      return Err(parsed.error);
    }
    var verlist := parsed.value;
    if |verlist| < 2 {
      return Err(IndexError);
    }
    if verlist[1] < 6 {
      return Ok(Fallback);
    }
    if verlist[1] == 6 {
      if |verlist| < 3 {
        return Err(IndexError);
      }
      if verlist[2] < 4 {
        return Ok(Fallback);
      }
    }
    return Ok(version);
  }

  /** Once a prefix of the components fails to parse, the whole list does,
      and only with `ValueError`. */
  lemma {:induction false} CollectPrefixError(conv: seq<Option<int>>, i: nat)
    requires i <= |conv|
    requires Collect(conv[..i]).Err?
    ensures Collect(conv) == Err(ValueError)
    decreases |conv| - i
  {
    if i == |conv| {
      assert conv[..i] == conv;
      CollectErrorKind(conv);
    } else {
      assert conv[..i + 1][..i] == conv[..i];
      CollectPrefixError(conv, i + 1);
    }
  }

  lemma {:induction false} CollectErrorKind(conv: seq<Option<int>>)
    ensures Collect(conv).Err? ==> Collect(conv).error == ValueError
    decreases |conv|
  {
    if |conv| > 0 {
      CollectErrorKind(conv[..|conv| - 1]);
    }
  }

  /** Components that all convert give exactly their numbers. */
  lemma {:induction false} CollectOk(conv: seq<Option<int>>, nums: seq<int>)
    requires |conv| == |nums|
    requires forall k :: 0 <= k < |conv| ==> conv[k] == Some(nums[k])
    ensures Collect(conv) == Ok(nums)
    decreases |conv|
  {
    if |conv| > 0 {
      var n := |conv| - 1;
      CollectOk(conv[..n], nums[..n]);
      assert nums[..n] + [nums[n]] == nums;
    }
  }

  lemma ParseAllOk(parts: seq<string>, nums: seq<int>)
    requires |parts| == |nums|
    requires forall k :: 0 <= k < |parts| ==> PyInt.ParseInt(parts[k]) == Some(nums[k])
    ensures ParseAll(parts) == Ok(nums)
  {
    CollectOk(Converted(parts), nums);
  }

  /** `".".join(str(n) for n in nums)`: the version string an agent reports. */
  function Render(nums: seq<int>): string
  {
    Text.Join(seq(|nums|, k requires 0 <= k < |nums| => PyInt.Decimal(nums[k])), '.')
  }

  lemma DecimalHasNoDot(n: int)
    ensures '.' !in PyInt.Decimal(n)
  {
    var s := PyInt.Decimal(n);
    forall k | 0 <= k < |s| ensures s[k] != '.' {
      if n < 0 && k > 0 {
        assert s[k] == PyInt.NatDigits(-n)[k - 1];
      }
    }
  }

  /** For a version string made of decimal numbers the outcome is the
      comparison on those numbers. */
  lemma RenderedVersion(nums: seq<int>)
    requires |nums| >= 1
    ensures DataVersion(Some(Render(nums))) == FromParts(Render(nums), nums)
  {
    var parts := seq(|nums|, k requires 0 <= k < |nums| => PyInt.Decimal(nums[k]));
    forall k | 0 <= k < |parts|
      ensures '.' !in parts[k] && PyInt.ParseInt(parts[k]) == Some(nums[k])
    {
      DecimalHasNoDot(nums[k]);
      PyInt.ParseDecimal(nums[k]);
    }
    Text.SplitJoin(parts, '.');
    ParseAllOk(parts, nums);
  }

  /** Falling up happens exactly when the minor part is below 6, or is 6 with
      a patch part below 4; otherwise the reported string is kept. The major
      part plays no role. */
  lemma FallsUpExactly(nums: seq<int>)
    requires |nums| >= 3
    ensures DataVersion(Some(Render(nums))) ==
      if nums[1] < 6 || (nums[1] == 6 && nums[2] < 4) then Ok(Fallback) else Ok(Render(nums))
  {
    RenderedVersion(nums);
  }

  /** With only two components the patch part is never asked for unless the
      minor part is 6. */
  lemma TwoComponents(major: int, minor: int)
    ensures DataVersion(Some(Render([major, minor]))) ==
      if minor < 6 then Ok(Fallback)
      else if minor == 6 then Err(IndexError)
      else Ok(Render([major, minor]))
  {
    RenderedVersion([major, minor]);
  }

  /** A result without `agent_version` falls up. A version string with one
      component fails on the missing minor part. */
  lemma MissingParts(major: int)
    ensures DataVersion(None) == Ok(Fallback)
    ensures DataVersion(Some(Render([major]))) == Err(IndexError)
  {
    RenderedVersion([major]);
  }

  /** A version is at least the fallback by the minor/patch rule. */
  predicate NotOlder(version: string)
  {
    match ParseAll(Text.Split(version, '.'))
    case Err(_) => false
    case Ok(nums) =>
      |nums| >= 2 && (nums[1] > 6 || (nums[1] == 6 && |nums| >= 3 && nums[2] >= 4))
  }

  /** The fallback is the rendering of `[0, 6, 4]`. */
  lemma FallbackParts()
    ensures Render([0, 6, 4]) == Fallback
  {
    var parts := seq(3, k requires 0 <= k < 3 => PyInt.Decimal([0, 6, 4][k]));
    assert PyInt.Decimal(0) == "0" && PyInt.Decimal(6) == "6" && PyInt.Decimal(4) == "4";
    assert parts == ["0", "6", "4"];
    assert Text.Join(parts[2..], '.') == "4";
    assert Text.Join(parts[1..], '.') == "6.4";
  }

  /** The fallback is itself not older than the fallback and is kept. */
  lemma FallbackKept()
    ensures NotOlder(Fallback)
    ensures DataVersion(Some(Fallback)) == Ok(Fallback)
  {
    FallbackParts();
    RenderedVersion([0, 6, 4]);
    var parts := seq(3, k requires 0 <= k < 3 => PyInt.Decimal([0, 6, 4][k]));
    forall k | 0 <= k < 3
      ensures '.' !in parts[k] && PyInt.ParseInt(parts[k]) == Some([0, 6, 4][k])
    {
      DecimalHasNoDot([0, 6, 4][k]);
      PyInt.ParseDecimal([0, 6, 4][k]);
    }
    Text.SplitJoin(parts, '.');
    ParseAllOk(parts, [0, 6, 4]);
  }

  /** The chosen template is never older than the fallback, and choosing
      again from the chosen version changes nothing. */
  lemma NeverOlder(agentVersion: Option<string>)
    requires DataVersion(agentVersion).Ok?
    ensures NotOlder(DataVersion(agentVersion).value)
    ensures DataVersion(Some(DataVersion(agentVersion).value)) == DataVersion(agentVersion)
  {
    var w := DataVersion(agentVersion).value;
    if w == Fallback {
      FallbackKept();
    } else {
      var v := agentVersion.value;
      var nums := ParseAll(Text.Split(v, '.')).value;
      assert FromParts(v, nums) == Ok(w);
      assert w == v;
      assert |nums| >= 2 && (nums[1] > 6 || (nums[1] == 6 && |nums| >= 3 && nums[2] >= 4));
    }
  }
}
