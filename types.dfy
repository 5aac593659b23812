/** Identifiers and the optional value shared by every module of the model. */
module Types {

  datatype Option<T> = None | Some(value: T)

  /** A key of the node slot map. Keys are handed out once and never reused. */
  type NodeId = int

  /** A process id of an application. */
  type Pid = int

  /** A window is identified by the owning process and a per-process index. */
  datatype WindowId = WindowId(pid: Pid, idx: int)

  /** An opaque identifier of a virtual desktop. */
  type SpaceId = int

  /** A rectangle with real coordinates: origin (x, y) and size (w, h). */
  datatype Rect = Rect(x: real, y: real, w: real, h: real)
}
