/** What travels between clients, brokers and the controller. All text is ASCII. */
module Packets {
  import opened Bytes

  datatype Command =
    | RegisterCommand
    | ClientIdCommand(clientId: string)
    | PublishCommand(topic: string, payload: string, acks: int, containsChecksum: bool)
    | FetchOffsetCommand(topic: string)
    | PullCommand(topic: string, offset: int, size: int)
    | SubscribeCommand(topic: string)
    | CommitOffsetCommand(topic: string, offset: int, acks: int)
    | PingCommand
    | ReplicaFetchCommand(topic: string, offset: int, size: int, replicaId: string)
    | RegisterTopicCommand(topic: string)
    | MetadataRequestCommand(topic: string)
    | BrokerRegisterCommand(brokerId: string, host: string, port: int)
    | ControllerPingCommand(brokerId: string)
    | BrokerMetadataListCommand(brokerId: string)
    | IsrChangeCommand(topic: string, isr: seq<string>)

  /** A topic's metadata as the controller sends it. */
  datatype TopicMeta = TopicMeta(
    topic: string, leaderId: string, leaderAddr: string, leaderPort: int, replicas: seq<string>, version: int)

  /** The responses that are sent, and the headers that stand for them on the receiving side. */
  datatype Response =
    | ClientIdResponse(clientId: string)
    | PingResponse
    | OffsetAckResponse(topic: string, offset: int, acks: int)
    | PubAckResponse(topic: string, offset: int, acks: int)
    | FetchOffsetResponse(topic: string, offset: int)
    | ErrorResponse(code: int, message: string)
    | MessageResponseHeader(topic: string, length: int)
    | MessageResponse(topic: string, payload: seq<byte>)
    | FileResponse(topic: string, filePath: string, offset: int, length: int)
    | ReplicaFetchHeaderResponse(topic: string, logEndOffset: int, highWatermark: int, payloadLength: int)
    | ReplicaFetchBytesResponse(topic: string, logEndOffset: int, highWatermark: int, payload: seq<byte>)
    | ReplicaFetchFileResponse(topic: string, logEndOffset: int, highWatermark: int, filePath: string, offset: int, length: int)
    | TopicMetaDataResponse(meta: TopicMeta)
    | TopicMetaDataListHeaderResponse(payloadLength: int)
    | TopicMetaDataListResponse(metas: seq<TopicMeta>)
    | ControllerPingResponse
    | NotLeaderControllerResponse(leaderId: string, leaderHost: string, leaderPort: int)
}
