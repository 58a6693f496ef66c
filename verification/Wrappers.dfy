/** Outcome types shared by all components: a value, or one of the platform's exceptions. */
module Wrappers {

  datatype Option<+T> = None | Some(value: T)

  datatype Result<+T> = Ok(value: T) | Err(error: Error)

  /** The exception classes the modelled code raises; UnhandledError stands for the language's own. */
  datatype Error =
    | ArtifactIntegrityError
    | ModelNotFoundError
    | ModelRegistryError
    | ModelVersionConflictError
    | InvalidLifecycleTransitionError
    | RollbackError
    | PromotionRejectedError
    | LineageError
    | ConfigurationError
    | UnhandledError
}
