/** Optional values and the outcomes of the task service's operations. */
module Results {

  datatype Option<T> = None | Some(value: T)

  /** The exceptions the task service raises. */
  datatype Error =
    | UserNotFound   // NotFoundException: createTask names an unknown username
    | TitleConflict  // ConflictException: the owner already has a task with that title
    | TaskNotFound   // plain Error('Task not found'): deleteTask or updateTask names an absent id

  /** Either the value an operation returns or the exception it raises. */
  datatype Result<T> = Ok(value: T) | Err(error: Error)
}
