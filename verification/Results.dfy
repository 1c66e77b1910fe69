/** Outcomes of the fallible operations, and the refusals they name. */
module Results {

  datatype Error =
    | ShareShapeMismatch
    | QuorumNotMet
    | CustodyViolation
    | GhostDenied
    | PhysicalDevicesNotMet
    | InvalidQuorumThreshold
    | NodeNotFound
    | CannotAddLeaf
    | CannotEvict
    | DuplicateNodeLabel
    | KeyNotUsable
    | InvalidTreeSpec
    | StalePublicTree
    | ConstraintFailed
    | InvalidBridge
    | BridgeNotWhitelisted
    | UpdateNotAuthorized
    | UpdateRecipientMismatch
    | InvalidUpdatePackage
    | StaleUpdate
    | ProposalNotFound
    | TooFewBridgeMembers
    | NotBridgeMember
    | InvalidPublicKey
    | SealedKeyNotHeld
    | IntegrityCheckFailed
    | BridgeDestroyed
    | BridgeGenerationMismatch
    | BridgeExists
    | IdentityConflict
    | TransferReplay
    | TransferDenied

  datatype Result<+T> = Ok(value: T) | Err(error: Error)

  datatype Option<+T> = None | Some(value: T)
}
