/** Failure-carrying values: the plugin's exceptions become `Err` results. */
module Results {

  datatype Option<+T> = None | Some(value: T)

  /** What a DmException thrown by the plugin stands for. */
  datatype Error =
    | InvalidArgument      // EINVAL: an empty location
    | NoEntry              // ENOENT
    | NotDirectory         // ENOTDIR
    | CopyFailed           // EIO: the temp file could not be replayed into HDFS
    | SystemError          // whatever errno the failing system call left behind
    | NoReplicas           // DMLITE_NO_REPLICAS
    | ModeForbids          // ENOSYS: the pool mode does not allow the operation
    | MalformedMode        // DMLITE_MALFORMED: unknown pool mode

  datatype Result<+T> = Ok(value: T) | Err(error: Error)
}
