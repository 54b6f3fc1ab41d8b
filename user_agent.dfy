/**
 * The user-agent chain: an ordered list of product/version entries whose
 * string form (computed once, at construction) is the entries written
 * "productName/productVersion" and joined by single spaces.
 */
module UserAgents {
  import opened Wrappers
  import Strings

  datatype Agent = Agent(productName: string, productVersion: string)

  /** "productName/productVersion". */
  function FormatUserAgent(agent: Agent): string
  {
    agent.productName + "/" + agent.productVersion
  }

  /** An entry's text splits at its first "/" back into name and version, when the name holds no "/". */
  lemma FormatUserAgentSplits(agent: Agent)
    requires '/' !in agent.productName
    ensures var f, n := FormatUserAgent(agent), |agent.productName|;
      Strings.IndexOf(f, '/') == Some(n) && f[..n] == agent.productName && f[n + 1..] == agent.productVersion
  {
    var f := FormatUserAgent(agent);
    Strings.IndexAfterPrefix(agent.productName, '/', agent.productVersion);
    assert f[..|agent.productName|] == agent.productName;
    assert f[|agent.productName| + 1..] == agent.productVersion;
  }

  function Formatted(agents: seq<Agent>): (r: seq<string>)
    ensures |r| == |agents|
    ensures forall k :: 0 <= k < |agents| ==> r[k] == FormatUserAgent(agents[k])
  {
    seq(|agents|, k requires 0 <= k < |agents| => FormatUserAgent(agents[k]))
  }

  function Render(agents: seq<Agent>): string
  {
    Strings.Join(Formatted(agents), " ")
  }

  /**
   * A user agent: the entries and the string computed from them when it was built,
   * held as a value (the caller's array is not shared).
   */
  datatype UserAgent = UserAgent(agents: seq<Agent>, stringValue: string)
  {
    ghost predicate Valid()
    {
      stringValue == Render(agents)
    }

    /** A new user agent with `agent` appended as the last (least specific) entry. */
    function AddAgent(agent: Agent): (r: UserAgent)
      ensures r.agents == agents + [agent] && r.Valid()
    {
      NewUserAgent(agents + [agent])
    }

    function ToString(): (s: string)
      ensures Valid() ==> s == Render(agents)
    {
      stringValue
    }
  }

  function NewUserAgent(agents: seq<Agent>): (ua: UserAgent)
    ensures ua.agents == agents && ua.Valid()
  {
    UserAgent(agents, Render(agents))
  }

  /** An empty chain renders as the empty string. */
  lemma EmptyUserAgent()
    ensures NewUserAgent([]).ToString() == ""
  {
  }

  /** Appending an entry appends its text, after a space unless the chain was empty. */
  lemma ToStringAfterAddAgent(ua: UserAgent, agent: Agent)
    requires ua.Valid()
    ensures ua.AddAgent(agent).ToString()
            == if ua.agents == [] then FormatUserAgent(agent) else ua.ToString() + " " + FormatUserAgent(agent)
  {
    assert Formatted(ua.agents + [agent]) == Formatted(ua.agents) + [FormatUserAgent(agent)];
    Strings.JoinAppend(Formatted(ua.agents), " ", FormatUserAgent(agent));
  }

  /** An entry whose text cannot be confused with the separators. */
  predicate WellFormed(agent: Agent)
  {
    ' ' !in agent.productName && '/' !in agent.productName && ' ' !in agent.productVersion
  }

  /** Reads entries back from the space-separated "name/version" form (reference parser). */
  function ParseUserAgent(s: string): Option<seq<Agent>>
  {
    if s == "" then Some([]) else ParseEntries(Strings.Split(s, ' '))
  }

  function ParseEntries(parts: seq<string>): Option<seq<Agent>>
  {
    if parts == [] then Some([])
    else match Strings.IndexOf(parts[0], '/')
      case None => None
      case Some(i) =>
        match ParseEntries(parts[1..])
        case None => None
        case Some(rest) => Some([Agent(parts[0][..i], parts[0][i + 1..])] + rest)
  }

  lemma {:induction false} ParseEntriesFormatted(agents: seq<Agent>)
    requires forall k :: 0 <= k < |agents| ==> WellFormed(agents[k])
    ensures ParseEntries(Formatted(agents)) == Some(agents)
  {
    if agents != [] {
      var a := agents[0];
      FormatUserAgentSplits(a);
      assert Formatted(agents)[1..] == Formatted(agents[1..]);
      ParseEntriesFormatted(agents[1..]);
      assert agents == [a] + agents[1..];
    }
  }

  /** The rendered string loses nothing: well-formed entries are read back in order. */
  lemma UserAgentRoundTrip(agents: seq<Agent>)
    requires forall k :: 0 <= k < |agents| ==> WellFormed(agents[k])
    ensures ParseUserAgent(NewUserAgent(agents).ToString()) == Some(agents)
  {
    if agents != [] {
      var fs := Formatted(agents);
      forall k | 0 <= k < |fs| ensures ' ' !in fs[k] {
        assert fs[k] == agents[k].productName + "/" + agents[k].productVersion;
      }
      Strings.SplitJoin(fs, ' ');
      JoinStartsWithFirst(fs, " ");
      assert '/' in fs[0];
      ParseEntriesFormatted(agents);
    }
  }

  lemma {:induction false} JoinStartsWithFirst(parts: seq<string>, sep: string)
    requires parts != []
    ensures |Strings.Join(parts, sep)| >= |parts[0]|
    ensures Strings.Join(parts, sep)[..|parts[0]|] == parts[0]
  {
  }
}
