/** The state field of a task (TaskState_e in kern/include/task.h). */
module TaskStates {
  datatype TaskState = Uninit | Sleeping | Runnable | Zombie
}
