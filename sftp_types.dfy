/** Value types shared by the SFTP file-system model: job identifiers handed
    out by the SFTP channel, the per-entry file information it reports, and a
    small Option type standing in for nullable pointers. */
module SftpTypes {

  datatype Option<+T> = None | Some(value: T)

  /** Identifier of an asynchronous SFTP job (a 32-bit unsigned number in the
      channel API). */
  type JobId = nat

  /** The channel's "no job" value. */
  const InvalidJob: JobId := 0

  datatype FileType = Regular | Directory | Symlink | Other | Unknown

  /** One remote directory entry as the channel reports it.  Timestamps and
      permissions are carried opaquely by the channel and play no part here. */
  datatype FileInfo = FileInfo(name: string, fileType: FileType, size: nat)
}
