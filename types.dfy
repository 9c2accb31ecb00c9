/**
 * The records the extension reads from its remote API, the tag it adds to
 * each of them at ingestion, the persisted snapshot, and the markdown text it
 * hands to the editor.
 */
module Types {
  import opened Wrappers

  datatype LdapInfo = LdapInfo(name: string, email: string)

  /** Read from deciders by the formatter although the record type omits it. */
  datatype OwnerInfo = OwnerInfo(fullName: string, username: string)

  /**
   * A feature flag. `currentValue` is optional because the API may omit it;
   * such deciders are dropped at ingestion.
   */
  datatype Decider = Decider(
    url: string,
    createdAt: Option<string>,
    description: Option<string>,
    owner: Option<string>,
    lastUpdated: string,
    currentValue: Option<int>,
    ldap: Option<string>,
    ldapInfo: Option<LdapInfo>,
    ownerInfo: Option<OwnerInfo>,
    key: string)

  datatype ParsedStatus = Running | Debug | Disabled | Complete | Deleted

  /** An A/B test. */
  datatype Experiment = Experiment(
    creator: string,
    createdAt: string,
    description: Option<string>,
    lastUpdated: string,
    startDate: string,
    endDate: Option<string>,
    shippedDate: Option<string>,
    key: string,
    owner: string,
    status: int,
    parsedStatus: ParsedStatus,
    team: Option<string>,
    version: int,
    docLink: string,
    experimentDecision: string,
    url: string)

  /** A record with the `type` tag added at ingestion. */
  datatype Item = DeciderItem(decider: Decider) | ExperimentItem(experiment: Experiment)
  {
    /** The value of the `type` tag. */
    function Type(): string {
      if DeciderItem? then "decider" else "experiment"
    }

    function Key(): string {
      if DeciderItem? then decider.key else experiment.key
    }

    function Url(): string {
      if DeciderItem? then decider.url else experiment.url
    }

    function Description(): Option<string> {
      if DeciderItem? then decider.description else experiment.description
    }

    function CreatedAt(): Option<string> {
      if DeciderItem? then decider.createdAt else Some(experiment.createdAt)
    }

    function LastUpdated(): string {
      if DeciderItem? then decider.lastUpdated else experiment.lastUpdated
    }
  }

  /** The persisted unit: both lists and the time they were written. */
  datatype Snapshot = Snapshot(lastUpdated: int, deciders: seq<Item>, experiments: seq<Item>)

  /** A failed request: the network, a non-JSON body or an unexpected shape. */
  datatype FetchError = FetchError(message: string)

  /** A markdown string; `isTrusted` lets its links run. */
  datatype Markdown = Markdown(value: string, isTrusted: bool)
  {
    /** `appendMarkdown`: the text is appended as it is. */
    function Append(text: string): Markdown {
      this.(value := value + text)
    }
  }

  /** JavaScript truthiness of an optional string. */
  predicate Truthy(s: Option<string>) {
    s.Some? && s.value != ""
  }

  /** Template-literal rendering of an optional string. */
  function Show(s: Option<string>): string {
    if s.Some? then s.value else "undefined"
  }
}
