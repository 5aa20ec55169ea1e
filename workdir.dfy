/** The locations inside the work directory that the pipeline uses. */
module Workdir {
  import opened Environment

  datatype WorkDir = WorkDir(location: string)

  /** Where the clones live. */
  function ReposDir(wd: WorkDir): string { JoinPath(wd.location, "repos") }

  /** Where the checkpoint of the repository table is written. */
  function DatabaseFile(wd: WorkDir): string { JoinPath(wd.location, "db.json") }
}
