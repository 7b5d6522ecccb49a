/** Life-cycle states shared by processes and threads. */
module TaskStates {
  datatype TaskState = New | Runnable | Running | SleepInt | SleepUnint | Zombie | Dead
}
