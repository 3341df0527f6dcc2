/** The template objects: who they are, and the final fields they are made with. */
module Templates {
  import opened JavaInt

  /** What the constructor accepts as a retry count. */
  type RetryCount = n: Int32 | 0 <= n

  datatype Template = Template(id: nat, retryCount: RetryCount, ignoreThreadLocal: bool, readonly: bool)
}
