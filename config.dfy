/** Deployment constants of the cluster runtime (utility/config.py). */
module Config {
  /** Size of the hash ring: every ring position lies in [0, HASH_M). */
  const HASH_M: int := 1193
  /** Number of successors the failure detector pings. */
  const NUM_SUC: int := 4
  /** Number of replicas the file store keeps besides the owner. */
  const NUM_REPLICA: int := 3
  /** Hostname of the introducer that answers JOIN messages. */
  const INTRODUCER_HOSTNAME: string := "fa22-cs425-9201.cs.illinois.edu"
}
