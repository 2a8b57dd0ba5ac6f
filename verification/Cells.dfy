/** The cell as the controller sees it: what is declared, and what was last observed. */
module Cells {
  import opened Wrappers
  import opened Text

  datatype Volume = Volume(name: string, realm: string, space: string, stack: string)

  /** A mount of kind volume (or not), naming its volume by a bare source or by explicit coordinates. */
  datatype Mount = Mount(isVolume: bool, ensure: bool, source: string, ref: Option<Volume>)

  datatype Container = Container(id: string, root: bool, mounts: seq<Mount>, env: seq<string>)

  /** Metadata and spec. */
  datatype Body = Body(
    name: string, labels: map<string, string>, id: string, realm: string, space: string, stack: string,
    rootContainerID: string, containers: seq<Container>, runtimeEnv: seq<string>, envOverrides: seq<string>)

  datatype State = Pending | Ready | Stopped | Failed | Unknown | Exited | Error | Degraded

  datatype ContainerStatus = ContainerStatus(id: string, ready: bool)

  /** The three status fields of the drift detection pass. */
  datatype Sync = Sync(outOfSync: bool, reason: string, error: string)

  datatype Status = Status(state: State, containers: seq<ContainerStatus>, sync: Sync)

  datatype Cell = Cell(body: Body, status: Status)

  const LABEL_CONFIG := "kukeon.io/config"

  /** configLineage: the Config named by the cell's lineage label, if any. */
  function Lineage(b: Body): Option<string> {
    var name := TrimSpace(if LABEL_CONFIG in b.labels then b.labels[LABEL_CONFIG] else "");
    if name == "" then None else Some(name)
  }
}
