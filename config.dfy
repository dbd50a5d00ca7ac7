/** The build constants of include/config.h that the core uses. */
module Config {
  /** DEFAULT_PORT: the port before any -p/--port. */
  const DefaultPort: int := 80

  /** MAX_DIR_PATH_SIZE: the size of every directory and file path array,
      terminator included. */
  const MaxDirPathSize: nat := 4096
}
