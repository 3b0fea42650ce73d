/** Small types shared by the models. */
module Common {
  /** What the C code writes as a pointer that may be NULL, or as an invalid id. */
  datatype Option<T> = None | Some(value: T)

  /** The states of struct sched_entry (include/core/sched/scheduler_skeleton.h). */
  datatype EntryState = DETACHED | WAITING | RUNNING
}
