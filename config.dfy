/** The configuration records of autopr/config.py: the pull-request template, the filter rules
    and their two modes. Loading and schema validation are not part of this model. */
module Config {
  import opened Wrappers

  const FilterModeAdd := "add"
  const FilterModeRemove := "remove"

  datatype Credentials = Credentials(apiKey: string, sshKeyFile: string)

  /** Title and body of the pull request, commit message and the work branch name. */
  datatype PrTemplate = PrTemplate(title: string, message: string, branch: string, body: string)

  /** One selection rule. `mode` is a free string, as in the configuration file; only
      FilterModeAdd and FilterModeRemove are understood. An absent field matches everything;
      `matchName` holds name patterns of which one must match, `matchOwner` one owner pattern. */
  datatype Filter = Filter(
    mode: string,
    public: Option<bool>,
    archived: Option<bool>,
    matchName: Option<seq<string>>,
    matchOwner: Option<string>)

  datatype Config = Config(
    credentials: Credentials,
    pr: PrTemplate,
    repositories: seq<Filter>,
    updateCommand: seq<string>)
}
